/** The grammar of RFC 8259 (sections 2 to 7) as concrete syntax trees, and the proof that the
    parser accepts exactly the texts of the grammar and reads each as the value it denotes. */
module JsonGrammar {
  import opened Units
  import opened Json

  // ----- Trees: every choice that the grammar leaves to a writer

  /** A hexadecimal digit and its value. */
  datatype Nibble = Nibble(letter: Unit, value: int)

  /** One character of a string: as itself, by a one-letter escape, or by four hex digits. */
  datatype Piece = Raw(u: Unit) | Short(letter: Unit, code: Unit) | Hex(a: Nibble, b: Nibble, c: Nibble, d: Nibble)

  datatype Tree =
    | Word(v: Value)
    | Num(lexeme: Text)
    | Quoted(pieces: seq<Piece>)
    | Brackets(blank: Text, items: seq<Item>)
    | Braces(blank: Text, entries: seq<Entry>)

  /** An array item and the white space behind it; `gap` is the white space behind the comma, if
      another item follows. */
  datatype Item = Item(tree: Tree, after: Text, gap: Text)

  datatype Entry = Entry(key: seq<Piece>, beforeColon: Text, afterColon: Text, tree: Tree, after: Text, gap: Text)

  // ----- Which trees are well formed, and what characters mean, in literal codes

  predicate Digits(x: Text) { x != [] && forall i :: 0 <= i < |x| ==> '0' as int <= x[i] <= '9' as int }

  predicate IsWhole(x: Text) { x == ['0' as int] || (Digits(x) && x[0] != '0' as int) }

  predicate IsFraction(x: Text) { x == [] || (x[0] == '.' as int && Digits(x[1..])) }

  predicate IsExponent(x: Text) {
    || x == []
    || ((x[0] == 'e' as int || x[0] == 'E' as int)
        && (Digits(x[1..]) || (|x| > 1 && (x[1] == '+' as int || x[1] == '-' as int) && Digits(x[2..]))))
  }

  /** An optional minus up to `a`, then the integer, the fraction and the exponent. */
  predicate NumberParts(x: Text, a: nat, b: nat, c: nat) {
    && a <= b <= c <= |x| && (a == 0 || x[..a] == ['-' as int])
    && IsWhole(x[a..b]) && IsFraction(x[b..c]) && IsExponent(x[c..])
  }

  ghost predicate IsNumber(x: Text) {
    exists a: nat, b: nat, c: nat :: NumberParts(x, a, b, c)
  }

  /** White space: space, tab, line feed and carriage return (section 2). */
  predicate IsGap(x: Text) {
    forall i :: 0 <= i < |x| ==> x[i] == 0x20 || x[i] == 0x09 || x[i] == 0x0A || x[i] == 0x0D
  }

  /** The one-letter escapes (section 7). */
  predicate IsEscape(letter: Unit, code: Unit) {
    || (letter == '"' as int && code == 0x22) || (letter == '\\' as int && code == 0x5C)
    || (letter == '/' as int && code == 0x2F) || (letter == 'b' as int && code == 0x08)
    || (letter == 'f' as int && code == 0x0C) || (letter == 'n' as int && code == 0x0A)
    || (letter == 'r' as int && code == 0x0D) || (letter == 't' as int && code == 0x09)
  }

  predicate IsNibble(n: Nibble) {
    || (0 <= n.value < 10 && n.letter == '0' as int + n.value)
    || (10 <= n.value < 16 && (n.letter == 'a' as int + n.value - 10 || n.letter == 'A' as int + n.value - 10))
  }

  predicate GoodPiece(p: Piece) {
    match p
    case Raw(u) => u >= 0x20 && u != '"' as int && u != '\\' as int
    case Short(letter, code) => IsEscape(letter, code)
    case Hex(a, b, c, d) => IsNibble(a) && IsNibble(b) && IsNibble(c) && IsNibble(d)
  }

  predicate GoodPieces(ps: seq<Piece>) { forall i :: 0 <= i < |ps| ==> GoodPiece(ps[i]) }

  ghost predicate Good(t: Tree) {
    match t
    case Word(v) => v.Null? || v.Bool?
    case Num(lexeme) => IsNumber(lexeme)
    case Quoted(pieces) => GoodPieces(pieces)
    case Brackets(blank, items) => IsGap(blank) && forall i :: 0 <= i < |items| ==> GoodItem(items[i])
    case Braces(blank, entries) => IsGap(blank) && forall i :: 0 <= i < |entries| ==> GoodEntry(entries[i])
  }

  ghost predicate GoodItem(x: Item) {
    Good(x.tree) && IsGap(x.after) && IsGap(x.gap)
  }

  ghost predicate GoodEntry(x: Entry) {
    && GoodPieces(x.key) && Good(x.tree)
    && IsGap(x.beforeColon) && IsGap(x.afterColon) && IsGap(x.after) && IsGap(x.gap)
  }

  // ----- The text of a tree

  function PieceText(p: Piece): (r: Text)
    ensures r != []
  {
    match p
    case Raw(u) => [u]
    case Short(letter, _) => ['\\' as int, letter]
    case Hex(a, b, c, d) => ['\\' as int, 'u' as int, a.letter, b.letter, c.letter, d.letter]
  }

  /** The characters of a string and its closing quote. */
  function CharsText(ps: seq<Piece>): Text {
    if ps == [] then ['"' as int] else PieceText(ps[0]) + CharsText(ps[1..])
  }

  function WordText(v: Value): Text {
    if v == Bool(true) then ['t' as int, 'r' as int, 'u' as int, 'e' as int]
    else if v == Bool(false) then ['f' as int, 'a' as int, 'l' as int, 's' as int, 'e' as int]
    else ['n' as int, 'u' as int, 'l' as int, 'l' as int]
  }

  function TextOf(t: Tree): Text {
    match t
    case Word(v) => WordText(v)
    case Num(lexeme) => lexeme
    case Quoted(pieces) => ['"' as int] + CharsText(pieces)
    case Brackets(blank, items) => ['[' as int] + (blank + ItemsText(items))
    case Braces(blank, entries) => ['{' as int] + (blank + EntriesText(entries))
  }

  /** The items of an array and its closing bracket. */
  function ItemsText(items: seq<Item>): Text {
    if items == [] then [']' as int]
    else if |items| == 1 then TextOf(items[0].tree) + (items[0].after + [']' as int])
    else TextOf(items[0].tree) + (items[0].after + ([',' as int] + (items[0].gap + ItemsText(items[1..]))))
  }

  /** A member of an object, without the white space behind it. */
  function EntryText(x: Entry): Text {
    ['"' as int] + (CharsText(x.key) + (x.beforeColon + ([':' as int] + (x.afterColon + TextOf(x.tree)))))
  }

  function EntriesText(entries: seq<Entry>): Text {
    if entries == [] then ['}' as int]
    else if |entries| == 1 then EntryText(entries[0]) + (entries[0].after + ['}' as int])
    else EntryText(entries[0]) + (entries[0].after + ([',' as int] + (entries[0].gap + EntriesText(entries[1..]))))
  }

  // ----- The value of a tree

  function PieceUnit(p: Piece): Unit
    requires GoodPiece(p)
  {
    match p
    case Raw(u) => u
    case Short(_, code) => code
    case Hex(a, b, c, d) => a.value * 0x1000 + b.value * 0x100 + c.value * 0x10 + d.value
  }

  function PieceUnits(ps: seq<Piece>): Text
    requires GoodPieces(ps)
  {
    if ps == [] then [] else [PieceUnit(ps[0])] + PieceUnits(ps[1..])
  }

  ghost function Meaning(t: Tree): Value
    requires Good(t)
  {
    match t
    case Word(v) => v
    case Num(lexeme) => Number(lexeme)
    case Quoted(pieces) => Str(PieceUnits(pieces))
    case Brackets(_, items) => Arr(ItemValues(items))
    case Braces(_, entries) => Obj(EntryMembers(entries))
  }

  ghost function ItemValues(items: seq<Item>): (vs: seq<Value>)
    requires forall i :: 0 <= i < |items| ==> GoodItem(items[i])
  {
    if items == [] then []
    else
      assert GoodItem(items[0]);
      [Meaning(items[0].tree)] + ItemValues(items[1..])
  }

  ghost function EntryMember(x: Entry): Member
    requires GoodEntry(x)
  {
    Member(PieceUnits(x.key), Meaning(x.tree))
  }

  ghost function EntryMembers(entries: seq<Entry>): seq<Member>
    requires forall i :: 0 <= i < |entries| ==> GoodEntry(entries[i])
  {
    if entries == [] then []
    else
      assert GoodEntry(entries[0]);
      [EntryMember(entries[0])] + EntryMembers(entries[1..])
  }

  // ----- Texts that stand at a position of a longer text

  lemma MatchesConcat(s: Text, i: nat, a: Text, b: Text)
    requires Matches(s, i, a + b)
    ensures Matches(s, i, a) && Matches(s, i + |a|, b)
  {
    var ab := a + b;
    forall k | 0 <= k < |a| ensures s[i + k] == a[k] { assert s[i + k] == ab[k]; }
    forall k | 0 <= k < |b| ensures s[i + |a| + k] == b[k] { assert s[i + (|a| + k)] == ab[|a| + k]; }
  }

  lemma MatchesFirst(s: Text, i: nat, word: Text)
    requires Matches(s, i, word) && word != []
    ensures i < |s| && s[i] == word[0]
  {
    assert s[i + 0] == word[0];
  }

  lemma MatchesOne(s: Text, i: nat, u: Unit)
    requires Matches(s, i, [u])
    ensures i < |s| && s[i] == u
  {
    assert s[i + 0] == [u][0];
  }

  /** What follows cannot continue a number. */
  predicate Stops(s: Text, j: nat) {
    j >= |s| || (!IsDigit(s[j]) && s[j] != DOT && s[j] != 0x65 && s[j] != 0x45)
  }

  lemma {:induction false} DigitsAt(s: Text, i: nat, lexeme: Text, k: nat)
    requires Matches(s, i, lexeme) && k <= |lexeme| && Stops(s, i + |lexeme|)
    ensures SkipDigits(s, i + k) == i + SkipDigits(lexeme, k)
    decreases |lexeme| - k
  {
    if k < |lexeme| {
      assert s[i + k] == lexeme[k];
      if IsDigit(lexeme[k]) { DigitsAt(s, i, lexeme, k + 1); }
    }
  }

  lemma IntegerAt(s: Text, i: nat, lexeme: Text, k: nat)
    requires Matches(s, i, lexeme) && k <= |lexeme| && Stops(s, i + |lexeme|)
    requires EndOfInteger(lexeme, k).Ok?
    ensures EndOfInteger(s, i + k) == Ok((), i + EndOfInteger(lexeme, k).next)
  {
    assert s[i + k] == lexeme[k];
    DigitsAt(s, i, lexeme, k);
  }

  lemma FractionAt(s: Text, i: nat, lexeme: Text, k: nat)
    requires Matches(s, i, lexeme) && k <= |lexeme| && Stops(s, i + |lexeme|)
    requires EndOfFraction(lexeme, k).Ok?
    ensures EndOfFraction(s, i + k) == Ok((), i + EndOfFraction(lexeme, k).next)
  {
    if k < |lexeme| {
      assert s[i + k] == lexeme[k];
      DigitsAt(s, i, lexeme, k + 1);
    }
  }

  lemma ExponentAt(s: Text, i: nat, lexeme: Text, k: nat)
    requires Matches(s, i, lexeme) && k <= |lexeme| && Stops(s, i + |lexeme|)
    requires EndOfExponent(lexeme, k).Ok?
    ensures EndOfExponent(s, i + k) == Ok((), i + EndOfExponent(lexeme, k).next)
  {
    if k < |lexeme| {
      assert s[i + k] == lexeme[k];
      if lexeme[k] == 0x65 || lexeme[k] == 0x45 {
        assert k + 1 < |lexeme|;
        assert s[i + (k + 1)] == lexeme[k + 1];
        DigitsAt(s, i, lexeme, AfterSign(lexeme, k + 1));
      }
    }
  }

  lemma NumberAt(s: Text, i: nat, lexeme: Text)
    requires Matches(s, i, lexeme) && IsNumber(lexeme) && Stops(s, i + |lexeme|)
    ensures EndOfNumber(s, i) == Ok((), i + |lexeme|)
  {
    hide EndOfInteger, EndOfFraction, EndOfExponent, Stops, SkipDigits, IsNumber;
    NumberGrammar(lexeme);
    assert s[i + 0] == lexeme[0];
    var k := if lexeme[0] == MINUS then 1 else 0;
    IntegerAt(s, i, lexeme, k);
    var k1 := EndOfInteger(lexeme, k).next;
    FractionAt(s, i, lexeme, k1);
    ExponentAt(s, i, lexeme, EndOfFraction(lexeme, k1).next);
  }

  lemma {:induction false} WhiteAt(s: Text, i: nat, blank: Text)
    requires Matches(s, i, blank) && IsGap(blank)
    requires i + |blank| < |s| ==> !IsWhite(s[i + |blank|])
    ensures SkipWhite(s, i) == i + |blank|
    decreases |blank|
  {
    if blank != [] {
      assert s[i + 0] == blank[0];
      var rest := blank[1..];
      assert Matches(s, i + 1, rest) by {
        forall k | 0 <= k < |rest| ensures s[i + 1 + k] == rest[k] { assert s[i + (k + 1)] == blank[k + 1]; }
      }
      WhiteAt(s, i + 1, rest);
    }
  }

  lemma NoWordAt(s: Text, i: nat)
    requires i < |s| && (s[i] == MINUS || IsDigit(s[i]))
    ensures !Matches(s, i, TRUE_WORD) && !Matches(s, i, FALSE_WORD) && !Matches(s, i, NULL_WORD)
  {
    assert s[i + 0] != TRUE_WORD[0] && s[i + 0] != FALSE_WORD[0] && s[i + 0] != NULL_WORD[0];
  }

  // ----- Completeness: the parser reads every text of the grammar

  lemma NibbleIs(n: Nibble)
    ensures IsNibble(n) <==> IsHex(n.letter) && n.value == HexValue(n.letter)
  {
  }

  lemma EscapeIs(letter: Unit, code: Unit)
    ensures IsEscape(letter, code) <==> Unescape(letter) == code
  {
  }

  lemma HexPieceAt(s: Text, i: nat, a: Nibble, b: Nibble, c: Nibble, d: Nibble)
    requires IsNibble(a) && IsNibble(b) && IsNibble(c) && IsNibble(d)
    requires i + 6 <= |s| && s[i] == BACKSLASH && s[i + 1] == LETTER_U
    requires s[i + 2] == a.letter && s[i + 3] == b.letter && s[i + 4] == c.letter && s[i + 5] == d.letter
    ensures ParseChars(s, i) == Prepend(PieceUnit(Hex(a, b, c, d)), ParseChars(s, i + 6))
  {
    hide HexValue, IsNibble, IsHex;
    NibbleIs(a);
    NibbleIs(b);
    NibbleIs(c);
    NibbleIs(d);
  }

  lemma PieceAt(s: Text, i: nat, p: Piece, rest: Parsed<Text>)
    requires GoodPiece(p) && Matches(s, i, PieceText(p)) && rest == ParseChars(s, i + |PieceText(p)|)
    ensures ParseChars(s, i) == Prepend(PieceUnit(p), rest)
  {
    hide IsNibble, IsEscape, Unescape;
    var t := PieceText(p);
    assert s[i + 0] == t[0];
    if |t| >= 2 { assert s[i + 1] == t[1]; }
    match p
    case Raw(_) =>
    case Short(letter, code) => EscapeIs(letter, code); NotU(letter, code);
    case Hex(a, b, c, d) =>
      assert s[i + 2] == t[2] && s[i + 3] == t[3] && s[i + 4] == t[4] && s[i + 5] == t[5];
      HexPieceAt(s, i, a, b, c, d);
  }

  lemma NotU(letter: Unit, code: Unit)
    requires IsEscape(letter, code)
    ensures letter != LETTER_U
  {
  }

  lemma {:induction false} CharsAt(s: Text, i: nat, ps: seq<Piece>)
    requires GoodPieces(ps) && Matches(s, i, CharsText(ps))
    ensures ParseChars(s, i) == Ok(PieceUnits(ps), i + |CharsText(ps)|)
    decreases |ps|
  {
    hide ParseChars, PieceUnit, PieceText, GoodPiece, Matches;
    if ps == [] {
      MatchesOne(s, i, QUOTE);
      QuoteEnds(s, i);
    } else {
      var p, rest := ps[0], ps[1..];
      MatchesConcat(s, i, PieceText(p), CharsText(rest));
      CharsAt(s, i + |PieceText(p)|, rest);
      PieceAt(s, i, p, ParseChars(s, i + |PieceText(p)|));
    }
  }

  lemma QuoteEnds(s: Text, i: nat)
    requires i < |s| && s[i] == QUOTE
    ensures ParseChars(s, i) == Ok([], i + 1)
  {
  }

  /** A tree's text starts with none of the characters that would end a list or be skipped. */
  lemma TreeStart(t: Tree)
    requires Good(t)
    ensures TextOf(t) != [] && !IsWhite(TextOf(t)[0])
    ensures TextOf(t)[0] != CLOSE_BRACKET && TextOf(t)[0] != CLOSE_BRACE
    ensures t.Num? ==> TextOf(t)[0] == MINUS || IsDigit(TextOf(t)[0])
  {
    hide IsNumber;
    if t.Num? { NumberGrammar(t.lexeme); }
  }

  lemma WordAt(s: Text, i: nat, v: Value)
    requires (v.Null? || v.Bool?) && Matches(s, i, WordText(v))
    ensures ParseValue(s, i) == Ok(v, i + |WordText(v)|)
  {
    hide EndOfNumber, ParseMembers, ParseItems, ParseChars;
    assert s[i + 0] == WordText(v)[0];
    if !v.Bool? || !v.b { assert !Matches(s, i, TRUE_WORD) by { assert s[i + 0] != TRUE_WORD[0]; } }
    if v.Null? { assert !Matches(s, i, FALSE_WORD) by { assert s[i + 0] != FALSE_WORD[0]; } }
  }

  lemma NumAt(s: Text, i: nat, lexeme: Text)
    requires IsNumber(lexeme) && Matches(s, i, lexeme) && Stops(s, i + |lexeme|)
    ensures ParseValue(s, i) == Ok(Number(lexeme), i + |lexeme|)
  {
    hide EndOfNumber, ParseMembers, ParseItems, ParseChars;
    TreeStart(Num(lexeme));
    assert s[i + 0] == lexeme[0];
    NumberAt(s, i, lexeme);
    NoWordAt(s, i);
    assert s[i..i + |lexeme|] == lexeme;
  }

  /** The parser reads a tree's text as the tree's value and stops right behind it. */
  lemma {:induction false} TreeAt(s: Text, i: nat, t: Tree)
    requires Good(t) && Matches(s, i, TextOf(t)) && Stops(s, i + |TextOf(t)|)
    ensures ParseValue(s, i) == Ok(Meaning(t), i + |TextOf(t)|)
    decreases t, 0
  {
    hide EndOfNumber, ParseChars, ItemsText, EntriesText, CharsText;
    hide Matches, ParseItems, ParseMembers, SkipWhite, WordText, IsGap, IsNumber, GoodItem, GoodEntry;
    match t
    case Word(v) => WordAt(s, i, v);
    case Num(lexeme) => NumAt(s, i, lexeme);
    case Quoted(pieces) =>
      MatchesConcat(s, i, [QUOTE], CharsText(pieces));
      MatchesOne(s, i, QUOTE);
      CharsAt(s, i + 1, pieces);
    case Brackets(blank, items) =>
      MatchesConcat(s, i, [OPEN_BRACKET], blank + ItemsText(items));
      MatchesOne(s, i, OPEN_BRACKET);
      MatchesConcat(s, i + 1, blank, ItemsText(items));
      ItemsAt(s, i + 1 + |blank|, items);
      WhiteAt(s, i + 1, blank);
    case Braces(blank, entries) =>
      MatchesConcat(s, i, [OPEN_BRACE], blank + EntriesText(entries));
      MatchesOne(s, i, OPEN_BRACE);
      MatchesConcat(s, i + 1, blank, EntriesText(entries));
      EntriesAt(s, i + 1 + |blank|, entries);
      WhiteAt(s, i + 1, blank);
  }

  lemma ItemsStep(s: Text, i: nat, v: Value, j: nat, k: nat)
    requires i <= |s| && ParseValue(s, i) == Ok(v, j) && SkipWhite(s, j) == k < |s|
    ensures s[k] == CLOSE_BRACKET ==> ParseItems(s, i) == Ok([v], k + 1)
    ensures s[k] == COMMA && ParseItems(s, SkipWhite(s, k + 1)).Ok? ==>
              var rest := ParseItems(s, SkipWhite(s, k + 1)); ParseItems(s, i) == Ok([v] + rest.value, rest.next)
  {
    hide ParseValue, SkipWhite;
  }

  lemma MembersStep(s: Text, i: nat, m: Member, j: nat, k: nat)
    requires i <= |s| && ParseMember(s, i) == Ok(m, j) && SkipWhite(s, j) == k < |s|
    ensures s[k] == CLOSE_BRACE ==> ParseMembers(s, i) == Ok([m], k + 1)
    ensures s[k] == COMMA && ParseMembers(s, SkipWhite(s, k + 1)).Ok? ==>
              var rest := ParseMembers(s, SkipWhite(s, k + 1)); ParseMembers(s, i) == Ok([m] + rest.value, rest.next)
  {
    hide ParseMember, SkipWhite;
  }

  /** What follows a value in its list: white space and then a character that no number goes on with. */
  lemma StopsAtBlank(s: Text, j: nat, blank: Text, u: Unit)
    requires Matches(s, j, blank + [u]) && IsGap(blank) && !IsDigit(u) && u != DOT && u != 0x65 && u != 0x45
    requires !IsWhite(u)
    ensures Stops(s, j) && SkipWhite(s, j) == j + |blank| < |s| && s[j + |blank|] == u
  {
    MatchesConcat(s, j, blank, [u]);
    MatchesOne(s, j + |blank|, u);
    WhiteAt(s, j, blank);
    if blank != [] { MatchesFirst(s, j, blank); }
  }

  /** The text of a list's items; the empty list is only its closing bracket. */
  lemma {:induction false} ItemsAt(s: Text, i: nat, items: seq<Item>)
    requires forall k :: 0 <= k < |items| ==> GoodItem(items[k])
    requires Matches(s, i, ItemsText(items))
    ensures i < |s| && !IsWhite(s[i])
    ensures if items == [] then s[i] == CLOSE_BRACKET && |ItemsText(items)| == 1
            else s[i] != CLOSE_BRACKET && ParseItems(s, i) == Ok(ItemValues(items), i + |ItemsText(items)|)
    decreases items
  {
    hide TextOf, ParseValue, ParseItems, SkipWhite, Matches, Good, Meaning, Stops;
    if items == [] {
      MatchesOne(s, i, CLOSE_BRACKET);
    } else {
      assert GoodItem(items[0]);
      var Item(tree, after, gap) := items[0];
      var p, rest := TextOf(tree), items[1..];
      var j := i + |p|;
      var k := j + |after|;
      TreeStart(tree);
      if |items| == 1 {
        MatchesConcat(s, i, p, after + [CLOSE_BRACKET]);
        StopsAtBlank(s, j, after, CLOSE_BRACKET);
        TreeAt(s, i, tree);
        ItemsStep(s, i, Meaning(tree), j, k);
        assert ItemValues(rest) == [] && [Meaning(tree)] + [] == [Meaning(tree)];
      } else {
        var more := gap + ItemsText(rest);
        MatchesConcat(s, i, p, after + ([COMMA] + more));
        Assoc(after, [COMMA], more);
        MatchesConcat(s, j, after + [COMMA], more);
        StopsAtBlank(s, j, after, COMMA);
        TreeAt(s, i, tree);
        MatchesConcat(s, k + 1, gap, ItemsText(rest));
        ItemsAt(s, k + 1 + |gap|, rest);
        WhiteAt(s, k + 1, gap);
        ItemsStep(s, i, Meaning(tree), j, k);
      }
      MatchesFirst(s, i, p);
    }
  }

  lemma {:induction false} EntryAt(s: Text, i: nat, x: Entry)
    requires GoodEntry(x) && Matches(s, i, EntryText(x)) && Stops(s, i + |EntryText(x)|)
    ensures ParseMember(s, i) == Ok(EntryMember(x), i + |EntryText(x)|)
    ensures i < |s| && s[i] == QUOTE
    decreases x, 0
  {
    hide TextOf, CharsText, ParseChars, ParseValue, SkipWhite, Matches, Good, Meaning, PieceUnits;
    var tail := x.afterColon + TextOf(x.tree);
    var chars := CharsText(x.key);
    var j := i + 1 + |chars|;
    var k := j + |x.beforeColon|;
    MatchesConcat(s, i, [QUOTE], chars + (x.beforeColon + ([COLON] + tail)));
    MatchesOne(s, i, QUOTE);
    MatchesConcat(s, i + 1, chars, x.beforeColon + ([COLON] + tail));
    CharsAt(s, i + 1, x.key);
    Assoc(x.beforeColon, [COLON], tail);
    MatchesConcat(s, j, x.beforeColon + [COLON], tail);
    StopsAtBlank(s, j, x.beforeColon, COLON);
    MatchesConcat(s, k + 1, x.afterColon, TextOf(x.tree));
    TreeStart(x.tree);
    MatchesFirst(s, k + 1 + |x.afterColon|, TextOf(x.tree));
    WhiteAt(s, k + 1, x.afterColon);
    TreeAt(s, k + 1 + |x.afterColon|, x.tree);
  }

  lemma {:induction false} EntriesAt(s: Text, i: nat, entries: seq<Entry>)
    requires forall k :: 0 <= k < |entries| ==> GoodEntry(entries[k])
    requires Matches(s, i, EntriesText(entries))
    ensures i < |s| && !IsWhite(s[i])
    ensures if entries == [] then s[i] == CLOSE_BRACE && |EntriesText(entries)| == 1
            else s[i] != CLOSE_BRACE && ParseMembers(s, i) == Ok(EntryMembers(entries), i + |EntriesText(entries)|)
    decreases entries
  {
    hide EntryText, ParseMember, ParseMembers, SkipWhite, Matches, Good, EntryMember, Stops;
    if entries == [] {
      MatchesOne(s, i, CLOSE_BRACE);
    } else {
      assert GoodEntry(entries[0]);
      var x, rest := entries[0], entries[1..];
      var p, after, gap := EntryText(x), x.after, x.gap;
      var j := i + |p|;
      var k := j + |after|;
      if |entries| == 1 {
        MatchesConcat(s, i, p, after + [CLOSE_BRACE]);
        StopsAtBlank(s, j, after, CLOSE_BRACE);
        EntryAt(s, i, x);
        MembersStep(s, i, EntryMember(x), j, k);
        assert EntryMembers(rest) == [] && [EntryMember(x)] + [] == [EntryMember(x)];
      } else {
        var more := gap + EntriesText(rest);
        MatchesConcat(s, i, p, after + ([COMMA] + more));
        Assoc(after, [COMMA], more);
        MatchesConcat(s, j, after + [COMMA], more);
        StopsAtBlank(s, j, after, COMMA);
        EntryAt(s, i, x);
        MatchesConcat(s, k + 1, gap, EntriesText(rest));
        EntriesAt(s, k + 1 + |gap|, rest);
        WhiteAt(s, k + 1, gap);
        MembersStep(s, i, EntryMember(x), j, k);
      }
    }
  }

  /** Every text of the grammar, with any white space around it, parses to its value. */
  lemma {:induction false} ParseComplete(before: Text, t: Tree, after: Text)
    requires Good(t) && IsGap(before) && IsGap(after)
    ensures Parse(before + TextOf(t) + after) == Some(Meaning(t))
  {
    hide Parse, TextOf, Good, Meaning, Matches, IsGap;
    var s := before + TextOf(t) + after;
    MatchesSelf(s);
    MatchesConcat(s, 0, before + TextOf(t), after);
    MatchesConcat(s, 0, before, TextOf(t));
    CompleteAt(s, before, t, after);
  }

  lemma MatchesSelf(s: Text)
    ensures Matches(s, 0, s)
  {
  }

  lemma CompleteAt(s: Text, before: Text, t: Tree, after: Text)
    requires Good(t) && IsGap(before) && IsGap(after)
    requires |s| == |before| + |TextOf(t)| + |after|
    requires Matches(s, 0, before) && Matches(s, |before|, TextOf(t)) && Matches(s, |before| + |TextOf(t)|, after)
    ensures Parse(s) == Some(Meaning(t))
  {
    hide ParseValue, TextOf, Good, Meaning, Matches, IsGap, SkipWhite;
    var j := |before| + |TextOf(t)|;
    TreeStart(t);
    MatchesFirst(s, |before|, TextOf(t));
    WhiteAt(s, 0, before);
    WhiteAt(s, j, after);
    StopsAtEnd(s, j, after);
    TreeAt(s, |before|, t);
  }

  lemma StopsAtEnd(s: Text, j: nat, after: Text)
    requires IsGap(after) && Matches(s, j, after) && |s| == j + |after|
    ensures Stops(s, j)
  {
    if after != [] {
      MatchesFirst(s, j, after);
    }
  }

  // ----- Numbers: the lexemes that the parser reads whole are those of the grammar (section 6)

  predicate ReadsWhole(x: Text) {
    EndOfNumber(x, 0) == Ok((), |x|)
  }

  lemma NumberGrammar(x: Text)
    ensures ReadsWhole(x) <==> IsNumber(x)
  {
    hide NumberParts, ReadsWhole;
    if ReadsWhole(x) {
      var a, b, c := CutNumber(x);
    }
    if IsNumber(x) {
      var a: nat, b: nat, c: nat :| NumberParts(x, a, b, c);
      PartsRead(x, a, b, c);
    }
  }

  lemma CutNumber(x: Text) returns (a: nat, b: nat, c: nat)
    requires ReadsWhole(x)
    ensures NumberParts(x, a, b, c)
  {
    hide EndOfInteger, EndOfFraction, EndOfExponent, IsWhole, IsFraction, IsExponent;
    a := if x != [] && x[0] == MINUS then 1 else 0;
    b := EndOfInteger(x, a).next;
    c := EndOfFraction(x, b).next;
    WholeSlice(x, a);
    FractionSlice(x, b);
    ExponentSlice(x, c);
  }

  lemma WholeSlice(x: Text, a: nat)
    requires a <= |x| && EndOfInteger(x, a).Ok?
    ensures IsWhole(x[a..EndOfInteger(x, a).next])
  {
    assert x[a] == x[a..EndOfInteger(x, a).next][0];
  }

  lemma FractionSlice(x: Text, b: nat)
    requires b <= |x| && EndOfFraction(x, b).Ok?
    ensures IsFraction(x[b..EndOfFraction(x, b).next])
  {
    var c := EndOfFraction(x, b).next;
    if b < c {
      assert x[b..c][0] == x[b];
      assert x[b..c][1..] == x[b + 1..c];
    }
  }

  lemma ExponentSlice(x: Text, c: nat)
    requires c <= |x| && EndOfExponent(x, c) == Ok((), |x|)
    ensures IsExponent(x[c..])
  {
    if c < |x| {
      var j := AfterSign(x, c + 1);
      assert x[c..][1..] == x[c + 1..];
      if j > c + 1 { assert x[c..][2..] == x[c + 2..]; }
    }
  }

  lemma DigitsEnd(x: Text, i: nat, j: nat)
    requires i < j <= |x| && Digits(x[i..j]) && (j == |x| || !IsDigit(x[j]))
    ensures SkipDigits(x, i) == j
  {
    forall k | i <= k < j ensures IsDigit(x[k]) { assert x[k] == x[i..j][k - i]; }
  }

  lemma PartsRead(x: Text, a: nat, b: nat, c: nat)
    requires NumberParts(x, a, b, c)
    ensures ReadsWhole(x)
  {
    hide SkipDigits;
    ExponentRead(x, c);
    FractionRead(x, b, c);
    WholeRead(x, a, b);
    if a == 1 { assert x[..a][0] == x[0]; }
    if a == 0 { assert IsDigit(x[0]); }
  }

  lemma ExponentRead(x: Text, c: nat)
    requires c <= |x| && IsExponent(x[c..])
    ensures EndOfExponent(x, c) == Ok((), |x|)
    ensures c == |x| || x[c] == 0x65 || x[c] == 0x45
  {
    if c < |x| {
      assert x[c..][0] == x[c];
      if Digits(x[c..][1..]) {
        assert x[c..][1..] == x[c + 1..|x|];
        assert IsDigit(x[c + 1..|x|][0]);
        DigitsEnd(x, c + 1, |x|);
      } else {
        assert |x[c..]| > 1 && x[c..][1] == x[c + 1];
        assert x[c..][2..] == x[c + 2..|x|];
        assert Digits(x[c + 2..|x|]) && |x[c + 2..|x|]| > 0;
        DigitsEnd(x, c + 2, |x|);
      }
    }
  }

  lemma FractionRead(x: Text, b: nat, c: nat)
    requires b <= c <= |x| && IsFraction(x[b..c]) && (c == |x| || x[c] == 0x65 || x[c] == 0x45)
    ensures EndOfFraction(x, b) == Ok((), c)
    ensures b == |x| || x[b] == DOT || x[b] == 0x65 || x[b] == 0x45
  {
    if b < c {
      assert x[b..c][1..] == x[b + 1..c];
      DigitsEnd(x, b + 1, c);
    }
  }

  lemma WholeRead(x: Text, a: nat, b: nat)
    requires a <= b <= |x| && IsWhole(x[a..b])
    requires b == |x| || x[b] == DOT || x[b] == 0x65 || x[b] == 0x45
    ensures EndOfInteger(x, a) == Ok((), b) && IsDigit(x[a])
  {
    assert a < b && x[a] == x[a..b][0];
    if x[a] != ZERO { DigitsEnd(x, a, b); }
  }

  // ----- Soundness: what the parser reads is a text of the grammar

  lemma MatchesJoin(s: Text, i: nat, a: Text, b: Text)
    requires Matches(s, i, a) && Matches(s, i + |a|, b)
    ensures Matches(s, i, a + b)
  {
    var ab := a + b;
    forall k | 0 <= k < |ab| ensures s[i + k] == ab[k] {
      if k < |a| {
        assert s[i + k] == a[k];
      } else {
        assert s[i + |a| + (k - |a|)] == b[k - |a|];
      }
    }
  }

  lemma MatchesSlice(s: Text, i: nat, j: nat)
    requires i <= j <= |s|
    ensures Matches(s, i, s[i..j])
  {
  }

  lemma MatchesUnit(s: Text, i: nat)
    requires i < |s|
    ensures Matches(s, i, [s[i]])
  {
  }

  lemma {:induction false} DigitsCut(s: Text, i: nat, lexeme: Text, k: nat)
    requires Matches(s, i, lexeme) && k <= |lexeme| && SkipDigits(s, i + k) <= i + |lexeme|
    ensures i + SkipDigits(lexeme, k) == SkipDigits(s, i + k)
    decreases |lexeme| - k
  {
    if k < |lexeme| {
      assert s[i + k] == lexeme[k];
      if IsDigit(lexeme[k]) { DigitsCut(s, i, lexeme, k + 1); }
    }
  }

  lemma IntegerCut(s: Text, i: nat, lexeme: Text, k: nat)
    requires Matches(s, i, lexeme) && k <= |lexeme|
    requires EndOfInteger(s, i + k).Ok? && EndOfInteger(s, i + k).next <= i + |lexeme|
    ensures EndOfInteger(lexeme, k).Ok? && i + EndOfInteger(lexeme, k).next == EndOfInteger(s, i + k).next
  {
    assert k < |lexeme|;
    assert s[i + k] == lexeme[k];
    if s[i + k] != ZERO { DigitsCut(s, i, lexeme, k); }
  }

  lemma FractionCut(s: Text, i: nat, lexeme: Text, k: nat)
    requires Matches(s, i, lexeme) && k <= |lexeme|
    requires EndOfFraction(s, i + k).Ok? && EndOfFraction(s, i + k).next <= i + |lexeme|
    ensures EndOfFraction(lexeme, k).Ok? && i + EndOfFraction(lexeme, k).next == EndOfFraction(s, i + k).next
  {
    if k < |lexeme| {
      assert s[i + k] == lexeme[k];
      if s[i + k] == DOT { DigitsCut(s, i, lexeme, k + 1); }
    }
  }

  lemma ExponentCut(s: Text, i: nat, lexeme: Text, k: nat)
    requires Matches(s, i, lexeme) && k <= |lexeme|
    requires EndOfExponent(s, i + k).Ok? && EndOfExponent(s, i + k).next <= i + |lexeme|
    ensures EndOfExponent(lexeme, k) == Ok((), EndOfExponent(s, i + k).next - i)
  {
    if k < |lexeme| {
      assert s[i + k] == lexeme[k];
      if s[i + k] == 0x65 || s[i + k] == 0x45 {
        assert k + 1 < |lexeme|;
        assert s[i + (k + 1)] == lexeme[k + 1];
        DigitsCut(s, i, lexeme, AfterSign(lexeme, k + 1));
      }
    }
  }

  /** The lexeme that the parser cuts out is a number by itself. */
  lemma NumberCut(s: Text, i: nat, lexeme: Text)
    requires i <= |s| && EndOfNumber(s, i).Ok? && lexeme == s[i..EndOfNumber(s, i).next]
    ensures IsNumber(lexeme) && Matches(s, i, lexeme)
  {
    hide EndOfInteger, EndOfFraction, EndOfExponent, SkipDigits, IsNumber;
    NumberGrammar(lexeme);
    MatchesSlice(s, i, EndOfNumber(s, i).next);
    MatchesFirst(s, i, lexeme);
    var k := if lexeme[0] == MINUS then 1 else 0;
    assert EndOfInteger(s, i + k).Ok?;
    IntegerCut(s, i, lexeme, k);
    assert EndOfFraction(s, EndOfInteger(s, i + k).next).Ok?;
    var k1 := EndOfInteger(lexeme, k).next;
    FractionCut(s, i, lexeme, k1);
    ExponentCut(s, i, lexeme, EndOfFraction(lexeme, k1).next);
  }

  lemma {:induction false} CharsSound(s: Text, i: nat) returns (ps: seq<Piece>)
    requires i <= |s| && ParseChars(s, i).Ok?
    ensures GoodPieces(ps) && PieceUnits(ps) == ParseChars(s, i).value
    ensures Matches(s, i, CharsText(ps)) && i + |CharsText(ps)| == ParseChars(s, i).next
    decreases |s| - i
  {
    if s[i] == QUOTE {
      ps := [];
      MatchesUnit(s, i);
    } else {
      var p := PieceOf(s, i);
      var rest := CharsSound(s, i + |PieceText(p)|);
      ps := [p] + rest;
      assert ps[1..] == rest;
      MatchesJoin(s, i, PieceText(p), CharsText(rest));
    }
  }

  function NibbleAt(u: Unit): (n: Nibble)
    requires IsHex(u)
    ensures IsNibble(n) && n.letter == u
  {
    Nibble(u, HexValue(u))
  }

  lemma PieceOf(s: Text, i: nat) returns (p: Piece)
    requires i < |s| && ParseChars(s, i).Ok? && s[i] != QUOTE
    ensures GoodPiece(p) && Matches(s, i, PieceText(p)) && i + |PieceText(p)| <= |s|
    ensures ParseChars(s, i + |PieceText(p)|).Ok?
    ensures ParseChars(s, i) == Prepend(PieceUnit(p), ParseChars(s, i + |PieceText(p)|))
  {
    if s[i] != BACKSLASH {
      p := Raw(s[i]);
    } else if s[i + 1] == LETTER_U {
      p := Hex(NibbleAt(s[i + 2]), NibbleAt(s[i + 3]), NibbleAt(s[i + 4]), NibbleAt(s[i + 5]));
      HexPieceAt(s, i, p.a, p.b, p.c, p.d);
    } else {
      p := Short(s[i + 1], Unescape(s[i + 1]));
      EscapeIs(s[i + 1], Unescape(s[i + 1]));
    }
  }

  lemma WhiteSlice(s: Text, i: nat) returns (blank: Text)
    requires i <= |s|
    ensures IsGap(blank) && Matches(s, i, blank) && SkipWhite(s, i) == i + |blank|
  {
    blank := s[i..SkipWhite(s, i)];
  }

  lemma WordOrNumber(s: Text, i: nat) returns (t: Tree)
    requires i < |s| && ParseValue(s, i).Ok?
    requires s[i] != OPEN_BRACE && s[i] != OPEN_BRACKET && s[i] != QUOTE
    ensures Good(t) && Meaning(t) == ParseValue(s, i).value
    ensures Matches(s, i, TextOf(t)) && i + |TextOf(t)| == ParseValue(s, i).next
  {
    hide EndOfNumber, ParseItems, ParseMembers, ParseChars, IsNumber;
    var r := ParseValue(s, i);
    if r.value.Number? {
      t := Num(r.value.lexeme);
      NumberCut(s, i, r.value.lexeme);
    } else if Matches(s, i, TRUE_WORD) {
      t := Word(Bool(true));
    } else if Matches(s, i, FALSE_WORD) {
      t := Word(Bool(false));
    } else {
      t := Word(Null);
    }
  }

  /** Every value that the parser reads is the meaning of a tree whose text it consumed. */
  lemma {:induction false} TreeSound(s: Text, i: nat) returns (t: Tree)
    requires i <= |s| && ParseValue(s, i).Ok?
    ensures Good(t) && Meaning(t) == ParseValue(s, i).value
    ensures Matches(s, i, TextOf(t)) && i + |TextOf(t)| == ParseValue(s, i).next
    decreases |s| - i, 0
  {
    if s[i] == QUOTE {
      t := QuotedSound(s, i);
    } else if s[i] == OPEN_BRACKET || s[i] == OPEN_BRACE {
      t := BodySound(s, i);
    } else {
      t := WordOrNumber(s, i);
    }
  }

  lemma QuotedSound(s: Text, i: nat) returns (t: Tree)
    requires i < |s| && s[i] == QUOTE && ParseValue(s, i).Ok?
    ensures Good(t) && Meaning(t) == ParseValue(s, i).value
    ensures Matches(s, i, TextOf(t)) && i + |TextOf(t)| == ParseValue(s, i).next
  {
    hide ParseChars, CharsText, Matches, PieceUnits, GoodPieces;
    var ps := CharsSound(s, i + 1);
    t := Quoted(ps);
    MatchesUnit(s, i);
    MatchesJoin(s, i, [QUOTE], CharsText(ps));
  }

  lemma {:induction false} BodySound(s: Text, i: nat) returns (t: Tree)
    requires i < |s| && (s[i] == OPEN_BRACKET || s[i] == OPEN_BRACE) && ParseValue(s, i).Ok?
    ensures Good(t) && Meaning(t) == ParseValue(s, i).value
    ensures Matches(s, i, TextOf(t)) && i + |TextOf(t)| == ParseValue(s, i).next
    decreases |s| - i - 1, 3
  {
    hide ParseValue, ParseItems, ParseMembers, SkipWhite, Matches, IsGap, GoodItem, GoodEntry, TextOf, Good, Meaning;
    var empty := BodyParts(s, i);
    var blank := WhiteSlice(s, i + 1);
    var j := SkipWhite(s, i + 1);
    if empty { MatchesUnit(s, j); }
    if s[i] == OPEN_BRACKET {
      var items := [];
      if !empty { items := ItemsSound(s, j); }
      NoItems();
      t := Brackets(blank, items);
      BracketsParts(s, i, blank, items);
    } else {
      var entries := [];
      if !empty { entries := EntriesSound(s, j); }
      NoItems();
      t := Braces(blank, entries);
      BracesParts(s, i, blank, entries);
    }
  }

  lemma NoItems()
    ensures ItemsText([]) == [CLOSE_BRACKET] && ItemValues([]) == []
    ensures EntriesText([]) == [CLOSE_BRACE] && EntryMembers([]) == []
  {
  }

  lemma BracketsParts(s: Text, i: nat, blank: Text, items: seq<Item>)
    requires i < |s| && s[i] == OPEN_BRACKET && IsGap(blank) && forall k :: 0 <= k < |items| ==> GoodItem(items[k])
    requires Matches(s, i + 1, blank) && Matches(s, i + 1 + |blank|, ItemsText(items))
    ensures var t := Brackets(blank, items);
            && Good(t) && Meaning(t) == Arr(ItemValues(items))
            && Matches(s, i, TextOf(t)) && |TextOf(t)| == 1 + |blank| + |ItemsText(items)|
  {
    hide Matches, IsGap, GoodItem;
    MatchesUnit(s, i);
    MatchesJoin(s, i + 1, blank, ItemsText(items));
    MatchesJoin(s, i, [OPEN_BRACKET], blank + ItemsText(items));
  }

  lemma BracesParts(s: Text, i: nat, blank: Text, entries: seq<Entry>)
    requires i < |s| && s[i] == OPEN_BRACE && IsGap(blank) && forall k :: 0 <= k < |entries| ==> GoodEntry(entries[k])
    requires Matches(s, i + 1, blank) && Matches(s, i + 1 + |blank|, EntriesText(entries))
    ensures var t := Braces(blank, entries);
            && Good(t) && Meaning(t) == Obj(EntryMembers(entries))
            && Matches(s, i, TextOf(t)) && |TextOf(t)| == 1 + |blank| + |EntriesText(entries)|
  {
    hide Matches, IsGap, GoodEntry;
    MatchesUnit(s, i);
    MatchesJoin(s, i + 1, blank, EntriesText(entries));
    MatchesJoin(s, i, [OPEN_BRACE], blank + EntriesText(entries));
  }

  lemma JoinLast(s: Text, i: nat, p: Text, after: Text, u: Unit)
    requires Matches(s, i, p) && Matches(s, i + |p|, after) && Matches(s, i + |p| + |after|, [u])
    ensures Matches(s, i, p + (after + [u]))
  {
    hide Matches;
    MatchesJoin(s, i + |p|, after, [u]);
    MatchesJoin(s, i, p, after + [u]);
  }

  lemma JoinMore(s: Text, i: nat, p: Text, after: Text, u: Unit, gap: Text, rest: Text)
    requires Matches(s, i, p) && Matches(s, i + |p|, after) && Matches(s, i + |p| + |after|, [u])
    requires Matches(s, i + |p| + |after| + 1, gap) && Matches(s, i + |p| + |after| + 1 + |gap|, rest)
    ensures Matches(s, i, p + (after + ([u] + (gap + rest))))
  {
    hide Matches;
    var j := i + |p|;
    MatchesJoin(s, j + |after| + 1, gap, rest);
    MatchesJoin(s, j + |after|, [u], gap + rest);
    MatchesJoin(s, j, after, [u] + (gap + rest));
    MatchesJoin(s, i, p, after + ([u] + (gap + rest)));
  }

  lemma LastItem(x: Item)
    requires GoodItem(x)
    ensures ItemsText([x]) == TextOf(x.tree) + (x.after + [CLOSE_BRACKET])
    ensures ItemValues([x]) == [Meaning(x.tree)]
  {
    hide TextOf, Meaning;
    assert [x][1..] == [];
    assert ItemValues([]) == [] && [Meaning(x.tree)] + [] == [Meaning(x.tree)];
  }

  lemma FirstItem(x: Item, rest: seq<Item>)
    requires GoodItem(x) && rest != [] && forall k :: 0 <= k < |rest| ==> GoodItem(rest[k])
    ensures ItemsText([x] + rest) == TextOf(x.tree) + (x.after + ([COMMA] + (x.gap + ItemsText(rest))))
    ensures ItemValues([x] + rest) == [Meaning(x.tree)] + ItemValues(rest)
  {
    hide TextOf, Meaning;
    assert ([x] + rest)[1..] == rest;
  }

  lemma {:induction false} ItemsSound(s: Text, i: nat) returns (items: seq<Item>)
    requires i <= |s| && ParseItems(s, i).Ok?
    ensures items != [] && forall k :: 0 <= k < |items| ==> GoodItem(items[k])
    ensures ItemValues(items) == ParseItems(s, i).value
    ensures Matches(s, i, ItemsText(items)) && i + |ItemsText(items)| == ParseItems(s, i).next
    decreases |s| - i, 1
  {
    hide ParseValue, ParseItems, SkipWhite, Matches, IsGap, Good, Meaning, TextOf, ItemsText, ItemValues;
    var first, j, more := ItemsParts(s, i);
    var tree := TreeSound(s, i);
    var after := WhiteSlice(s, first.next);
    MatchesUnit(s, j);
    if s[j] == CLOSE_BRACKET {
      NoBlank();
      items := [Item(tree, after, [])];
      JoinLast(s, i, TextOf(tree), after, CLOSE_BRACKET);
      LastItem(items[0]);
    } else {
      var gap := WhiteSlice(s, j + 1);
      var rest := ItemsSound(s, SkipWhite(s, j + 1));
      items := [Item(tree, after, gap)] + rest;
      FirstItem(items[0], rest);
      JoinMore(s, i, TextOf(tree), after, COMMA, gap, ItemsText(rest));
    }
  }

  lemma NoBlank()
    ensures IsGap([])
  {
  }

  lemma {:induction false} EntrySound(s: Text, i: nat, after: Text, gap: Text) returns (x: Entry)
    requires i <= |s| && ParseMember(s, i).Ok? && IsGap(after) && IsGap(gap)
    ensures GoodEntry(x) && EntryMember(x) == ParseMember(s, i).value && x.after == after && x.gap == gap
    ensures Matches(s, i, EntryText(x)) && i + |EntryText(x)| == ParseMember(s, i).next
    decreases |s| - i, 1
  {
    hide ParseValue, ParseMember, ParseChars, SkipWhite, Matches, IsGap;
    hide Good, Meaning, TextOf, CharsText, PieceUnits, GoodPieces;
    var key, j, value := MemberParts(s, i);
    var ps := CharsSound(s, i + 1);
    var before := WhiteSlice(s, key.next);
    var behind := WhiteSlice(s, j + 1);
    var tree := TreeSound(s, SkipWhite(s, j + 1));
    x := Entry(ps, before, behind, tree, after, gap);
    MatchesUnit(s, i);
    MatchesUnit(s, j);
    JoinMore(s, i + 1, CharsText(ps), before, COLON, behind, TextOf(tree));
    MatchesJoin(s, i, [QUOTE], CharsText(ps) + (before + ([COLON] + (behind + TextOf(tree)))));
  }

  lemma LastEntry(x: Entry)
    requires GoodEntry(x) && x.gap == []
    ensures EntriesText([x]) == EntryText(x) + (x.after + [CLOSE_BRACE])
    ensures EntryMembers([x]) == [EntryMember(x)]
  {
    assert [x][1..] == [];
    assert EntryMembers([]) == [] && [EntryMember(x)] + [] == [EntryMember(x)];
  }

  lemma FirstEntry(x: Entry, rest: seq<Entry>)
    requires GoodEntry(x) && rest != [] && forall k :: 0 <= k < |rest| ==> GoodEntry(rest[k])
    ensures EntriesText([x] + rest) == EntryText(x) + (x.after + ([COMMA] + (x.gap + EntriesText(rest))))
    ensures EntryMembers([x] + rest) == [EntryMember(x)] + EntryMembers(rest)
  {
    assert ([x] + rest)[1..] == rest;
  }

  lemma {:induction false} EntriesSound(s: Text, i: nat) returns (entries: seq<Entry>)
    requires i <= |s| && ParseMembers(s, i).Ok?
    ensures entries != [] && forall k :: 0 <= k < |entries| ==> GoodEntry(entries[k])
    ensures EntryMembers(entries) == ParseMembers(s, i).value
    ensures Matches(s, i, EntriesText(entries)) && i + |EntriesText(entries)| == ParseMembers(s, i).next
    decreases |s| - i, 2
  {
    hide ParseMember, ParseMembers, SkipWhite, Matches, IsGap, GoodEntry, EntryMember, EntryText;
    hide EntriesText, EntryMembers;
    var first, j, more := MembersParts(s, i);
    var after := WhiteSlice(s, first.next);
    MatchesUnit(s, j);
    if s[j] == CLOSE_BRACE {
      NoBlank();
      var x := EntrySound(s, i, after, []);
      entries := [x];
      JoinLast(s, i, EntryText(x), after, CLOSE_BRACE);
      LastEntry(x);
    } else {
      var gap := WhiteSlice(s, j + 1);
      var x := EntrySound(s, i, after, gap);
      var rest := EntriesSound(s, SkipWhite(s, j + 1));
      entries := [x] + rest;
      FirstEntry(x, rest);
      JoinMore(s, i, EntryText(x), after, COMMA, gap, EntriesText(rest));
    }
  }

  /** Whatever `JSON.parse` accepts is a text of the grammar between white space, and what it
      returns is that text's value. */
  lemma ParseSound(s: Text) returns (before: Text, t: Tree, after: Text)
    requires Parse(s).Some?
    ensures Good(t) && IsGap(before) && IsGap(after)
    ensures s == before + TextOf(t) + after && Parse(s).value == Meaning(t)
  {
    hide ParseValue, Good, Meaning, TextOf;
    var i := SkipWhite(s, 0);
    before := WhiteSlice(s, 0);
    t := TreeSound(s, i);
    var j := i + |TextOf(t)|;
    after := WhiteSlice(s, j);
    MatchesJoin(s, 0, before, TextOf(t));
    MatchesJoin(s, 0, before + TextOf(t), after);
    var all := before + TextOf(t) + after;
    assert forall k :: 0 <= k < |all| ==> s[0 + k] == all[k];
  }
}
