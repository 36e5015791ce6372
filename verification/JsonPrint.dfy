/** The compact print of a JSON value: the text of one tree of the grammar, without white space and
    with the escapes that section 7 of RFC 8259 asks for. */
module JsonPrint {
  import opened Units
  import opened Json
  import opened JsonGrammar

  function HexDigit(d: int): (n: Nibble)
    requires 0 <= d < 16
    ensures IsNibble(n) && n.value == d
  {
    Nibble(if d < 10 then 0x30 + d else 0x57 + d, d)
  }

  /** Surrogates are escaped too, so that every print is a sequence of scalar values. */
  function PieceOfUnit(u: Unit): Piece {
    if u == QUOTE || u == BACKSLASH then Short(u, u)
    else if u < 0x20 || 0xD800 <= u < 0xE000 then
      Hex(HexDigit(u / 0x1000), HexDigit(u / 0x100 % 0x10), HexDigit(u / 0x10 % 0x10), HexDigit(u % 0x10))
    else Raw(u)
  }

  function Pieces(chars: Text): seq<Piece> {
    if chars == [] then [] else [PieceOfUnit(chars[0])] + Pieces(chars[1..])
  }

  function TreeOf(v: Value): Tree {
    match v
    case Number(lexeme) => Num(lexeme)
    case Str(chars) => Quoted(Pieces(chars))
    case Arr(items) => Brackets([], ItemTrees(items))
    case Obj(members) => Braces([], EntryTrees(members))
    case _ => Word(v)
  }

  function ItemTrees(items: seq<Value>): seq<Item> {
    if items == [] then [] else [Item(TreeOf(items[0]), [], [])] + ItemTrees(items[1..])
  }

  function EntryTrees(members: seq<Member>): seq<Entry> {
    if members == [] then []
    else [Entry(Pieces(members[0].key), [], [], TreeOf(members[0].value), [], [])] + EntryTrees(members[1..])
  }

  function Print(v: Value): Text {
    TextOf(TreeOf(v))
  }

  /** Every number in the value is a number of section 6. */
  ghost predicate WellFormed(v: Value) {
    match v
    case Number(lexeme) => IsNumber(lexeme)
    case Arr(items) => forall i :: 0 <= i < |items| ==> WellFormed(items[i])
    case Obj(members) => forall i :: 0 <= i < |members| ==> WellFormed(members[i].value)
    case _ => true
  }

  // ----- The tree of a value denotes that value

  lemma TopDigits(u: nat, q: nat)
    requires q == u / 0x10
    ensures u == q * 0x10 + u % 0x10
  {
  }

  lemma HexUnitOf(u: Unit)
    ensures u == u / 0x1000 * 0x1000 + u / 0x100 % 0x10 * 0x100 + u / 0x10 % 0x10 * 0x10 + u % 0x10
  {
    TopDigits(u, u / 0x10);
    TopDigits(u / 0x10, u / 0x100);
    TopDigits(u / 0x100, u / 0x1000);
  }

  lemma {:induction false} PiecesMean(chars: Text)
    ensures GoodPieces(Pieces(chars)) && PieceUnits(Pieces(chars)) == chars
  {
    if chars != [] {
      var ps, rest := Pieces(chars), Pieces(chars[1..]);
      PiecesMean(chars[1..]);
      HexUnitOf(chars[0]);
      assert ps[1..] == rest;
      assert chars == [chars[0]] + chars[1..];
    }
  }

  lemma {:induction false} TreeMeans(v: Value)
    requires WellFormed(v)
    ensures Good(TreeOf(v)) && Meaning(TreeOf(v)) == v
    decreases v, 0
  {
    match v
    case Str(chars) => PiecesMean(chars);
    case Arr(items) => ItemsMean(items);
    case Obj(members) => EntriesMean(members);
    case _ =>
  }

  lemma {:induction false} ItemsMean(items: seq<Value>)
    requires forall i :: 0 <= i < |items| ==> WellFormed(items[i])
    ensures forall i :: 0 <= i < |ItemTrees(items)| ==> GoodItem(ItemTrees(items)[i])
    ensures ItemValues(ItemTrees(items)) == items
    decreases items
  {
    if items != [] {
      var rest := items[1..];
      TreeMeans(items[0]);
      ItemsMean(rest);
      assert ItemTrees(items)[1..] == ItemTrees(rest);
      assert GoodItem(ItemTrees(items)[0]);
      assert items == [items[0]] + rest;
    }
  }

  lemma {:induction false} EntriesMean(members: seq<Member>)
    requires forall i :: 0 <= i < |members| ==> WellFormed(members[i].value)
    ensures forall i :: 0 <= i < |EntryTrees(members)| ==> GoodEntry(EntryTrees(members)[i])
    ensures EntryMembers(EntryTrees(members)) == members
    decreases members
  {
    if members != [] {
      var m, rest := members[0], members[1..];
      TreeMeans(m.value);
      PiecesMean(m.key);
      EntriesMean(rest);
      assert EntryTrees(members)[1..] == EntryTrees(rest);
      assert GoodEntry(EntryTrees(members)[0]);
      assert EntryMember(EntryTrees(members)[0]) == m;
      assert members == [m] + rest;
    }
  }

  /** Parsing undoes printing, for every value. */
  lemma ParsePrint(v: Value)
    requires WellFormed(v)
    ensures Parse(Print(v)) == Some(v)
  {
    hide Parse, TextOf, Good, Meaning;
    TreeMeans(v);
    ParseComplete([], TreeOf(v), []);
    assert [] + Print(v) + [] == Print(v);
  }

  // ----- A print is one line of scalar values

  predicate IsLineUnit(u: int) { 0x20 <= u < 0xD800 || 0xE000 <= u < 0x10000 }

  ghost predicate IsLine(t: Text) { forall i :: 0 <= i < |t| ==> IsLineUnit(t[i]) }

  lemma LineConcat(a: Text, b: Text)
    requires IsLine(a) && IsLine(b)
    ensures IsLine(a + b)
  {
  }

  lemma {:induction false} PiecesLine(chars: Text)
    ensures IsLine(CharsText(Pieces(chars)))
  {
    if chars != [] {
      var p := PieceOfUnit(chars[0]);
      PiecesLine(chars[1..]);
      assert IsLine(PieceText(p));
      assert Pieces(chars)[1..] == Pieces(chars[1..]);
      LineConcat(PieceText(p), CharsText(Pieces(chars[1..])));
    }
  }

  lemma NumberLine(lexeme: Text)
    requires IsNumber(lexeme)
    ensures IsLine(lexeme)
  {
    hide IsNumber;
    NumberGrammar(lexeme);
  }

  lemma {:induction false} PrintLine(v: Value)
    requires WellFormed(v)
    ensures IsLine(Print(v))
    decreases v, 0
  {
    match v
    case Number(lexeme) => NumberLine(lexeme);
    case Str(chars) => PiecesLine(chars);
    case Arr(items) => ItemsLine(items);
    case Obj(members) => EntriesLine(members);
    case _ =>
  }

  lemma {:induction false} ItemsLine(items: seq<Value>)
    requires forall i :: 0 <= i < |items| ==> WellFormed(items[i])
    ensures IsLine(ItemsText(ItemTrees(items)))
    decreases items
  {
    if items != [] {
      PrintLine(items[0]);
      ItemsLine(items[1..]);
      ListLine(Print(items[0]), CLOSE_BRACKET, ItemsText(ItemTrees(items[1..])));
      assert ItemTrees(items)[1..] == ItemTrees(items[1..]);
    }
  }

  /** A printed item followed by its closing bracket, or by a comma and the rest of the list. */
  lemma ListLine(p: Text, close: Unit, rest: Text)
    requires IsLine(p) && IsLine(rest) && IsLineUnit(close)
    ensures IsLine(p + ([] + [close])) && IsLine(p + ([] + ([COMMA] + ([] + rest))))
  {
  }

  lemma MemberLine(m: Member)
    requires WellFormed(m.value)
    ensures IsLine(EntryText(EntryTrees([m])[0]))
    decreases m, 0
  {
    hide WellFormed, IsLineUnit;
    PiecesLine(m.key);
    PrintLine(m.value);
    ListLine(Print(m.value), QUOTE, []);
    MemberParts(CharsText(Pieces(m.key)), Print(m.value));
  }

  lemma MemberParts(key: Text, value: Text)
    requires IsLine(key) && IsLine(value)
    ensures IsLine([QUOTE] + (key + ([] + ([COLON] + ([] + value)))))
  {
  }

  lemma {:induction false} EntriesLine(members: seq<Member>)
    requires forall i :: 0 <= i < |members| ==> WellFormed(members[i].value)
    ensures IsLine(EntriesText(EntryTrees(members)))
    decreases members
  {
    if members != [] {
      MemberLine(members[0]);
      EntriesLine(members[1..]);
      ListLine(EntryText(EntryTrees([members[0]])[0]), CLOSE_BRACE, EntriesText(EntryTrees(members[1..])));
      assert EntryTrees(members)[1..] == EntryTrees(members[1..]);
      assert EntryTrees(members)[0] == EntryTrees([members[0]])[0];
    }
  }
}
