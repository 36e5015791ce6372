/** Damage outside ASCII never breaks a JSON text: it parses as before, to a value of the same
    shape in which only characters of strings and keys differ. */
module JsonDamage {
  import opened Units
  import opened Blur
  import opened Json
  import opened JsonGrammar

  // ----- Values that differ outside ASCII only

  /** The same value but for characters outside ASCII in its strings and keys. */
  ghost predicate BlurredValue(v: Value, w: Value) {
    match v
    case Str(chars) => w.Str? && Blurred(chars, w.chars)
    case Arr(items) =>
      w.Arr? && |w.items| == |items| && forall i :: 0 <= i < |items| ==> BlurredValue(items[i], w.items[i])
    case Obj(members) =>
      w.Obj? && |w.members| == |members| && forall i :: 0 <= i < |members| ==> BlurredMember(members[i], w.members[i])
    case _ => w == v
  }

  ghost predicate BlurredMember(m: Member, n: Member) {
    Blurred(m.key, n.key) && BlurredValue(m.value, n.value)
  }

  // ----- The tree of a blurred text

  function Raws(w: Text): seq<Piece> {
    if w == [] then [] else [Raw(w[0])] + Raws(w[1..])
  }

  lemma {:induction false} RawsText(w: Text, rest: seq<Piece>)
    requires GoodPieces(rest) && forall i :: 0 <= i < |w| ==> w[i] >= 0x80
    ensures GoodPieces(Raws(w) + rest)
    ensures CharsText(Raws(w) + rest) == w + CharsText(rest)
    ensures PieceUnits(Raws(w) + rest) == w + PieceUnits(rest)
  {
    hide GoodPieces, CharsText, PieceUnits;
    RawsGood(w, rest);
    if w == [] {
      assert Raws(w) + rest == rest;
      assert w + CharsText(rest) == CharsText(rest) && w + PieceUnits(rest) == PieceUnits(rest);
    } else {
      RawsText(w[1..], rest);
      RawsGood(w[1..], rest);
      Assoc([Raw(w[0])], Raws(w[1..]), rest);
      FirstRaw(w[0], Raws(w[1..]) + rest);
      assert w == [w[0]] + w[1..];
      Assoc([w[0]], w[1..], CharsText(rest));
      Assoc([w[0]], w[1..], PieceUnits(rest));
    }
  }

  lemma FirstRaw(u: Unit, tail: seq<Piece>)
    requires GoodPieces(tail) && GoodPieces([Raw(u)] + tail)
    ensures CharsText([Raw(u)] + tail) == [u] + CharsText(tail)
    ensures PieceUnits([Raw(u)] + tail) == [u] + PieceUnits(tail)
  {
    assert ([Raw(u)] + tail)[1..] == tail;
  }

  lemma {:induction false} RawsGood(w: Text, rest: seq<Piece>)
    requires GoodPieces(rest) && forall i :: 0 <= i < |w| ==> w[i] >= 0x80
    ensures GoodPieces(Raws(w) + rest)
  {
    if w == [] {
      assert Raws(w) + rest == rest;
    } else {
      RawsGood(w[1..], rest);
      assert Raws(w) + rest == [Raw(w[0])] + (Raws(w[1..]) + rest);
    }
  }

  lemma PieceAscii(p: Piece)
    requires GoodPiece(p) && !(p.Raw? && p.u >= 0x80)
    ensures IsAscii(PieceText(p))
  {
  }

  lemma {:induction false} CharsBlur(ps: seq<Piece>, w: Text) returns (qs: seq<Piece>)
    requires GoodPieces(ps) && Blurred(CharsText(ps), w)
    ensures GoodPieces(qs) && CharsText(qs) == w && Blurred(PieceUnits(ps), PieceUnits(qs))
  {
    hide Blurred;
    if ps == [] {
      qs := [];
      BlurredAscii([QUOTE], w);
      BlurredNothing();
    } else {
      var p, rest := ps[0], ps[1..];
      var k := BlurredSplit(PieceText(p), CharsText(rest), w);
      var rest' := CharsBlur(rest, w[k..]);
      assert w == w[..k] + w[k..];
      if p.Raw? && p.u >= 0x80 {
        BlurredOne(p.u, w[..k]);
        qs := Raws(w[..k]) + rest';
        RawsText(w[..k], rest');
        BlurredCons(p.u, w[..k], PieceUnits(rest), PieceUnits(rest'));
      } else {
        PieceAscii(p);
        BlurredAscii(PieceText(p), w[..k]);
        qs := [p] + rest';
        assert qs[1..] == rest';
        var u := PieceUnit(p);
        BlurredCons(u, [u], PieceUnits(rest), PieceUnits(rest'));
      }
    }
  }

  lemma NumberAscii(lexeme: Text)
    requires IsNumber(lexeme)
    ensures IsAscii(lexeme)
  {
    hide IsNumber;
    NumberGrammar(lexeme);
  }

  lemma BlankAscii(blank: Text)
    requires IsGap(blank)
    ensures IsAscii(blank)
  {
    forall i | 0 <= i < |blank| ensures blank[i] < 0x80 { }
  }

  /** Whatever a grammar text is blurred to is a grammar text, of a value that is blurred as well. */
  lemma {:induction false} TreeBlur(t: Tree, w: Text) returns (u: Tree)
    requires Good(t) && Blurred(TextOf(t), w)
    ensures Good(u) && TextOf(u) == w && BlurredValue(Meaning(t), Meaning(u))
    decreases t, 0
  {
    hide Blurred, CharsText, ItemsText, EntriesText, IsNumber;
    match t
    case Word(v) =>
      u := t;
      BlurredAscii(TextOf(t), w);
    case Num(lexeme) =>
      u := t;
      NumberAscii(lexeme);
      BlurredAscii(lexeme, w);
    case Quoted(pieces) =>
      AsciiFront([QUOTE], CharsText(pieces), w);
      var qs := CharsBlur(pieces, w[1..]);
      u := Quoted(qs);
    case Brackets(blank, items) =>
      BlankAscii(blank);
      Assoc([OPEN_BRACKET], blank, ItemsText(items));
      AsciiFront([OPEN_BRACKET] + blank, ItemsText(items), w);
      var k := 1 + |blank|;
      var xs := ItemsBlur(items, w[k..]);
      u := Brackets(blank, xs);
      Assoc([OPEN_BRACKET], blank, w[k..]);
    case Braces(blank, entries) =>
      BlankAscii(blank);
      Assoc([OPEN_BRACE], blank, EntriesText(entries));
      AsciiFront([OPEN_BRACE] + blank, EntriesText(entries), w);
      var k := 1 + |blank|;
      var xs := EntriesBlur(entries, w[k..]);
      u := Braces(blank, xs);
      Assoc([OPEN_BRACE], blank, w[k..]);
  }

  /** The last item of a list: what its closing bracket follows. */
  lemma ListLast(p: Text, after: Text, close: Unit, w: Text) returns (x: Text)
    requires IsGap(after) && close < 0x80 && Blurred(p + (after + [close]), w)
    ensures Blurred(p, x) && w == x + (after + [close])
  {
    hide Blurred;
    BlankAscii(after);
    var k := BlurredSplit(p, after + [close], w);
    BlurredAscii(after + [close], w[k..]);
    x := w[..k];
  }

  /** An item that others follow. */
  lemma ListMore(p: Text, after: Text, u: Unit, gap: Text, rest: Text, w: Text) returns (x: Text, y: Text)
    requires IsGap(after) && IsGap(gap) && u < 0x80
    requires Blurred(p + (after + ([u] + (gap + rest))), w)
    ensures Blurred(p, x) && Blurred(rest, y) && w == x + (after + ([u] + (gap + y)))
  {
    hide Blurred;
    BlankAscii(after);
    BlankAscii(gap);
    var front := after + ([u] + gap);
    ListTail(after, [u], gap, rest);
    var k := BlurredSplit(p, front + rest, w);
    AsciiFront(front, rest, w[k..]);
    x, y := w[..k], w[k..][|front|..];
    ListTail(after, [u], gap, y);
    assert w == w[..k] + w[k..];
  }

  lemma ListTail(after: Text, comma: Text, gap: Text, rest: Text)
    ensures after + (comma + gap) + rest == after + (comma + (gap + rest))
  {
  }

  lemma {:induction false} ItemsBlur(items: seq<Item>, w: Text) returns (xs: seq<Item>)
    requires forall i :: 0 <= i < |items| ==> GoodItem(items[i])
    requires Blurred(ItemsText(items), w)
    ensures |xs| == |items| && forall i :: 0 <= i < |xs| ==> GoodItem(xs[i])
    ensures ItemsText(xs) == w
    ensures BlurredValue(Arr(ItemValues(items)), Arr(ItemValues(xs)))
    decreases items
  {
    hide Blurred, TextOf, Good, Meaning, IsGap;
    if items == [] {
      xs := [];
      BlurredAscii([CLOSE_BRACKET], w);
    } else {
      assert GoodItem(items[0]);
      var Item(tree, after, gap) := items[0];
      if |items| == 1 {
        var x := ListLast(TextOf(tree), after, CLOSE_BRACKET, w);
        var u := TreeBlur(tree, x);
        xs := [Item(u, after, gap)];
        assert items == [items[0]] + [] && xs == [xs[0]] + [];
        ItemsCons(items[0], xs[0], [], []);
      } else {
        var x, y := ListMore(TextOf(tree), after, COMMA, gap, ItemsText(items[1..]), w);
        var u := TreeBlur(tree, x);
        var rest := ItemsBlur(items[1..], y);
        xs := [Item(u, after, gap)] + rest;
        assert xs[1..] == rest && items == [items[0]] + items[1..];
        ItemsCons(items[0], xs[0], items[1..], rest);
      }
    }
  }

  lemma {:induction false} ItemsCons(x: Item, y: Item, xs: seq<Item>, ys: seq<Item>)
    requires GoodItem(x) && GoodItem(y) && BlurredValue(Meaning(x.tree), Meaning(y.tree))
    requires forall i :: 0 <= i < |xs| ==> GoodItem(xs[i])
    requires forall i :: 0 <= i < |ys| ==> GoodItem(ys[i])
    requires BlurredValue(Arr(ItemValues(xs)), Arr(ItemValues(ys)))
    ensures BlurredValue(Arr(ItemValues([x] + xs)), Arr(ItemValues([y] + ys)))
  {
    hide Meaning, Good, IsGap;
    assert ([x] + xs)[1..] == xs && ([y] + ys)[1..] == ys;
  }

  lemma {:induction false} EntryBlur(x: Entry, w: Text) returns (y: Entry)
    requires GoodEntry(x) && Blurred(EntryText(x), w)
    ensures GoodEntry(y) && EntryText(y) == w && BlurredMember(EntryMember(x), EntryMember(y))
    ensures y.after == x.after && y.gap == x.gap
    decreases x, 0
  {
    hide Blurred, TextOf, Good, Meaning, IsGap, CharsText;
    var tail := CharsText(x.key) + (x.beforeColon + ([COLON] + (x.afterColon + TextOf(x.tree))));
    AsciiFront([QUOTE], tail, w);
    var key, value := ListMore(CharsText(x.key), x.beforeColon, COLON, x.afterColon, TextOf(x.tree), w[1..]);
    var ps := CharsBlur(x.key, key);
    var t := TreeBlur(x.tree, value);
    y := x.(key := ps, tree := t);
  }

  lemma {:induction false} EntriesBlur(entries: seq<Entry>, w: Text) returns (xs: seq<Entry>)
    requires forall i :: 0 <= i < |entries| ==> GoodEntry(entries[i])
    requires Blurred(EntriesText(entries), w)
    ensures |xs| == |entries| && forall i :: 0 <= i < |xs| ==> GoodEntry(xs[i])
    ensures EntriesText(xs) == w
    ensures BlurredValue(Obj(EntryMembers(entries)), Obj(EntryMembers(xs)))
    decreases entries
  {
    hide Blurred, EntryText, Good, EntryMember, IsGap;
    if entries == [] {
      xs := [];
      BlurredAscii([CLOSE_BRACE], w);
    } else {
      assert GoodEntry(entries[0]);
      var x := entries[0];
      if |entries| == 1 {
        var text := ListLast(EntryText(x), x.after, CLOSE_BRACE, w);
        var y := EntryBlur(x, text);
        xs := [y];
        assert entries == [x] + [] && xs == [y] + [];
        EntriesCons(x, y, [], []);
      } else {
        var text, more := ListMore(EntryText(x), x.after, COMMA, x.gap, EntriesText(entries[1..]), w);
        var y := EntryBlur(x, text);
        var rest := EntriesBlur(entries[1..], more);
        xs := [y] + rest;
        assert xs[1..] == rest && entries == [x] + entries[1..];
        EntriesCons(x, y, entries[1..], rest);
      }
    }
  }

  lemma {:induction false} EntriesCons(x: Entry, y: Entry, xs: seq<Entry>, ys: seq<Entry>)
    requires GoodEntry(x) && GoodEntry(y) && BlurredMember(EntryMember(x), EntryMember(y))
    requires forall i :: 0 <= i < |xs| ==> GoodEntry(xs[i])
    requires forall i :: 0 <= i < |ys| ==> GoodEntry(ys[i])
    requires BlurredValue(Obj(EntryMembers(xs)), Obj(EntryMembers(ys)))
    ensures BlurredValue(Obj(EntryMembers([x] + xs)), Obj(EntryMembers([y] + ys)))
  {
    hide EntryMember, Good, IsGap, BlurredMember;
    assert ([x] + xs)[1..] == xs && ([y] + ys)[1..] == ys;
  }

  /** Damage outside ASCII never makes a text unreadable: it still parses, and to the same value but
      for characters outside ASCII in strings and keys. */
  lemma {:induction false} BlurredParses(t: Text, w: Text)
    requires Parse(t).Some? && Blurred(t, w)
    ensures Parse(w).Some? && BlurredValue(Parse(t).value, Parse(w).value)
  {
    hide Parse, Blurred, TextOf, Good, Meaning, IsGap;
    var before, tree, after := ParseSound(t);
    BlankAscii(before);
    BlankAscii(after);
    Assoc(before, TextOf(tree), after);
    AsciiFront(before, TextOf(tree) + after, w);
    var rest := w[|before|..];
    var k := BlurredSplit(TextOf(tree), after, rest);
    BlurredAscii(after, rest[k..]);
    var u := TreeBlur(tree, rest[..k]);
    assert rest == rest[..k] + rest[k..];
    Assoc(before, rest[..k], after);
    ParseComplete(before, u, after);
  }
}
