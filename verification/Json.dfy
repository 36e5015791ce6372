/** `JSON.parse` over UTF-16 text: the grammar of RFC 8259 (sections 2 to 7). Numbers keep their
    lexeme and objects keep their members in order. */
module Json {
  import opened Units

  datatype Value =
    | Null
    | Bool(b: bool)
    | Number(lexeme: Text)
    | Str(chars: Text)
    | Arr(items: seq<Value>)
    | Obj(members: seq<Member>)

  datatype Member = Member(key: Text, value: Value)

  datatype Parsed<+T> = Fail | Ok(value: T, next: nat)

  const QUOTE: Unit := 0x22
  const PLUS: Unit := 0x2B
  const COMMA: Unit := 0x2C
  const MINUS: Unit := 0x2D
  const DOT: Unit := 0x2E
  const ZERO: Unit := 0x30
  const COLON: Unit := 0x3A
  const OPEN_BRACKET: Unit := 0x5B
  const BACKSLASH: Unit := 0x5C
  const CLOSE_BRACKET: Unit := 0x5D
  const OPEN_BRACE: Unit := 0x7B
  const CLOSE_BRACE: Unit := 0x7D
  const LETTER_U: Unit := 0x75
  const TRUE_WORD: Text := [0x74, 0x72, 0x75, 0x65]
  const FALSE_WORD: Text := [0x66, 0x61, 0x6C, 0x73, 0x65]
  const NULL_WORD: Text := [0x6E, 0x75, 0x6C, 0x6C]

  // ----- Lexical pieces

  predicate IsWhite(u: int) { u == 0x20 || u == 0x09 || u == 0x0A || u == 0x0D }

  predicate Blank(s: seq<int>) { forall i :: 0 <= i < |s| ==> IsWhite(s[i]) }

  predicate IsDigit(u: int) { 0x30 <= u <= 0x39 }

  predicate IsHex(u: int) { IsDigit(u) || 0x41 <= u <= 0x46 || 0x61 <= u <= 0x66 }

  function HexValue(u: int): int
    requires IsHex(u)
    ensures 0 <= HexValue(u) < 16
  {
    if u <= 0x39 then u - 0x30 else if u <= 0x46 then u - 0x37 else u - 0x57
  }

  /** The character a one-letter escape stands for, or -1. */
  function Unescape(u: int): (r: int)
    ensures r == -1 || 0 <= r < 0x80
  {
    match u
    case 0x22 => 0x22
    case 0x5C => 0x5C
    case 0x2F => 0x2F
    case 0x62 => 0x08
    case 0x66 => 0x0C
    case 0x6E => 0x0A
    case 0x72 => 0x0D
    case 0x74 => 0x09
    case _ => -1
  }

  function SkipWhite(s: Text, i: nat): (j: nat)
    requires i <= |s|
    ensures i <= j <= |s|
    ensures forall k :: i <= k < j ==> IsWhite(s[k])
    ensures j == |s| || !IsWhite(s[j])
    decreases |s| - i
  {
    if i < |s| && IsWhite(s[i]) then SkipWhite(s, i + 1) else i
  }

  function SkipDigits(s: Text, i: nat): (j: nat)
    requires i <= |s|
    ensures i <= j <= |s|
    ensures forall k :: i <= k < j ==> IsDigit(s[k])
    ensures j == |s| || !IsDigit(s[j])
    decreases |s| - i
  {
    if i < |s| && IsDigit(s[i]) then SkipDigits(s, i + 1) else i
  }

  // ----- Numbers (section 6)

  function EndOfInteger(s: Text, i: nat): (r: Parsed<()>)
    requires i <= |s|
    ensures r.Ok? ==> i < r.next <= |s|
  {
    if i == |s| || !IsDigit(s[i]) then Fail
    else if s[i] == ZERO then Ok((), i + 1)
    else Ok((), SkipDigits(s, i))
  }

  function EndOfFraction(s: Text, i: nat): (r: Parsed<()>)
    requires i <= |s|
    ensures r.Ok? ==> i <= r.next <= |s|
  {
    if i == |s| || s[i] != DOT then Ok((), i)
    else if SkipDigits(s, i + 1) == i + 1 then Fail
    else Ok((), SkipDigits(s, i + 1))
  }

  function AfterSign(s: Text, i: nat): (j: nat)
    requires i <= |s|
    ensures i <= j <= |s|
  {
    if i < |s| && (s[i] == PLUS || s[i] == MINUS) then i + 1 else i
  }

  function EndOfExponent(s: Text, i: nat): (r: Parsed<()>)
    requires i <= |s|
    ensures r.Ok? ==> i <= r.next <= |s|
  {
    if i == |s| || (s[i] != 0x65 && s[i] != 0x45) then Ok((), i)
    else
      var j := AfterSign(s, i + 1);
      if SkipDigits(s, j) == j then Fail else Ok((), SkipDigits(s, j))
  }

  function EndOfNumber(s: Text, i: nat): (r: Parsed<()>)
    requires i <= |s|
    ensures r.Ok? ==> i < r.next <= |s|
  {
    var whole := EndOfInteger(s, if i < |s| && s[i] == MINUS then i + 1 else i);
    if whole.Fail? then Fail
    else
      var fraction := EndOfFraction(s, whole.next);
      if fraction.Fail? then Fail else EndOfExponent(s, fraction.next)
  }

  // ----- Strings (section 7); `i` is just past the opening quote

  function ParseChars(s: Text, i: nat): (r: Parsed<Text>)
    requires i <= |s|
    ensures r.Ok? ==> i < r.next <= |s|
    decreases |s| - i
  {
    if i == |s| then Fail
    else if s[i] == QUOTE then Ok([], i + 1)
    else if s[i] != BACKSLASH then
      if s[i] < 0x20 then Fail else Prepend(s[i], ParseChars(s, i + 1))
    else if i + 1 == |s| then Fail
    else if s[i + 1] == LETTER_U then
      if i + 6 <= |s| && IsHex(s[i + 2]) && IsHex(s[i + 3]) && IsHex(s[i + 4]) && IsHex(s[i + 5]) then
        Prepend(HexUnit(s[i + 2], s[i + 3], s[i + 4], s[i + 5]), ParseChars(s, i + 6))
      else Fail
    else if Unescape(s[i + 1]) == -1 then Fail
    else Prepend(Unescape(s[i + 1]), ParseChars(s, i + 2))
  }

  function HexUnit(a: int, b: int, c: int, d: int): Unit
    requires IsHex(a) && IsHex(b) && IsHex(c) && IsHex(d)
  {
    ((HexValue(a) * 16 + HexValue(b)) * 16 + HexValue(c)) * 16 + HexValue(d)
  }

  function Prepend(u: Unit, rest: Parsed<Text>): Parsed<Text> {
    match rest
    case Fail => Fail
    case Ok(chars, next) => Ok([u] + chars, next)
  }

  // ----- Values (sections 3 to 5); white space before a value is already skipped

  function ParseValue(s: Text, i: nat): (r: Parsed<Value>)
    requires i <= |s|
    ensures r.Ok? ==> i < r.next <= |s|
    decreases |s| - i, 0
  {
    if i == |s| then Fail
    else if s[i] == OPEN_BRACE then
      var j := SkipWhite(s, i + 1);
      if j < |s| && s[j] == CLOSE_BRACE then Ok(Obj([]), j + 1)
      else
        var members := ParseMembers(s, j);
        if members.Fail? then Fail else Ok(Obj(members.value), members.next)
    else if s[i] == OPEN_BRACKET then
      var j := SkipWhite(s, i + 1);
      if j < |s| && s[j] == CLOSE_BRACKET then Ok(Arr([]), j + 1)
      else
        var items := ParseItems(s, j);
        if items.Fail? then Fail else Ok(Arr(items.value), items.next)
    else if s[i] == QUOTE then
      var chars := ParseChars(s, i + 1);
      if chars.Fail? then Fail else Ok(Str(chars.value), chars.next)
    else if Matches(s, i, TRUE_WORD) then Ok(Bool(true), i + 4)
    else if Matches(s, i, FALSE_WORD) then Ok(Bool(false), i + 5)
    else if Matches(s, i, NULL_WORD) then Ok(Null, i + 4)
    else
      var end := EndOfNumber(s, i);
      if end.Fail? then Fail else Ok(Number(s[i..end.next]), end.next)
  }

  function ParseItems(s: Text, i: nat): (r: Parsed<seq<Value>>)
    requires i <= |s|
    ensures r.Ok? ==> i < r.next <= |s|
    decreases |s| - i, 1
  {
    var first := ParseValue(s, i);
    if first.Fail? then Fail
    else
      var j := SkipWhite(s, first.next);
      if j == |s| then Fail
      else if s[j] == CLOSE_BRACKET then Ok([first.value], j + 1)
      else if s[j] != COMMA then Fail
      else
        var rest := ParseItems(s, SkipWhite(s, j + 1));
        if rest.Fail? then Fail else Ok([first.value] + rest.value, rest.next)
  }

  function ParseMember(s: Text, i: nat): (r: Parsed<Member>)
    requires i <= |s|
    ensures r.Ok? ==> i < r.next <= |s|
    decreases |s| - i, 1
  {
    if i == |s| || s[i] != QUOTE then Fail
    else
      var key := ParseChars(s, i + 1);
      if key.Fail? then Fail
      else
        var j := SkipWhite(s, key.next);
        if j == |s| || s[j] != COLON then Fail
        else
          var value := ParseValue(s, SkipWhite(s, j + 1));
          if value.Fail? then Fail else Ok(Member(key.value, value.value), value.next)
  }

  function ParseMembers(s: Text, i: nat): (r: Parsed<seq<Member>>)
    requires i <= |s|
    ensures r.Ok? ==> i < r.next <= |s|
    decreases |s| - i, 2
  {
    var first := ParseMember(s, i);
    if first.Fail? then Fail
    else
      var j := SkipWhite(s, first.next);
      if j == |s| then Fail
      else if s[j] == CLOSE_BRACE then Ok([first.value], j + 1)
      else if s[j] != COMMA then Fail
      else
        var rest := ParseMembers(s, SkipWhite(s, j + 1));
        if rest.Fail? then Fail else Ok([first.value] + rest.value, rest.next)
  }

  // ----- What a successful parse says about its parts

  lemma ItemsParts(s: Text, i: nat) returns (first: Parsed<Value>, j: nat, rest: Parsed<seq<Value>>)
    requires i <= |s| && ParseItems(s, i).Ok?
    ensures first == ParseValue(s, i) && first.Ok? && j == SkipWhite(s, first.next) < |s|
    ensures s[j] == CLOSE_BRACKET ==> ParseItems(s, i) == Ok([first.value], j + 1)
    ensures s[j] != CLOSE_BRACKET ==>
              && s[j] == COMMA
              && rest == ParseItems(s, SkipWhite(s, j + 1)) && rest.Ok?
              && ParseItems(s, i) == Ok([first.value] + rest.value, rest.next)
  {
    first := ParseValue(s, i);
    j := SkipWhite(s, first.next);
    rest := ParseItems(s, SkipWhite(s, j));
    if s[j] == COMMA { rest := ParseItems(s, SkipWhite(s, j + 1)); }
  }

  lemma MembersParts(s: Text, i: nat) returns (first: Parsed<Member>, j: nat, rest: Parsed<seq<Member>>)
    requires i <= |s| && ParseMembers(s, i).Ok?
    ensures first == ParseMember(s, i) && first.Ok? && j == SkipWhite(s, first.next) < |s|
    ensures s[j] == CLOSE_BRACE ==> ParseMembers(s, i) == Ok([first.value], j + 1)
    ensures s[j] != CLOSE_BRACE ==>
              && s[j] == COMMA
              && rest == ParseMembers(s, SkipWhite(s, j + 1)) && rest.Ok?
              && ParseMembers(s, i) == Ok([first.value] + rest.value, rest.next)
  {
    first := ParseMember(s, i);
    j := SkipWhite(s, first.next);
    rest := ParseMembers(s, SkipWhite(s, j));
    if s[j] == COMMA { rest := ParseMembers(s, SkipWhite(s, j + 1)); }
  }

  lemma MemberParts(s: Text, i: nat) returns (key: Parsed<Text>, j: nat, value: Parsed<Value>)
    requires i <= |s| && ParseMember(s, i).Ok?
    ensures i < |s| && s[i] == QUOTE
    ensures key == ParseChars(s, i + 1) && key.Ok? && j == SkipWhite(s, key.next) < |s| && s[j] == COLON
    ensures value == ParseValue(s, SkipWhite(s, j + 1)) && value.Ok?
    ensures ParseMember(s, i) == Ok(Member(key.value, value.value), value.next)
  {
    key := ParseChars(s, i + 1);
    j := SkipWhite(s, key.next);
    value := ParseValue(s, SkipWhite(s, j + 1));
  }

  lemma BodyParts(s: Text, i: nat) returns (empty: bool)
    requires i < |s| && ParseValue(s, i).Ok?
    requires s[i] == OPEN_BRACE || s[i] == OPEN_BRACKET
    ensures var r, j := ParseValue(s, i), SkipWhite(s, i + 1);
            if empty then
              && j < |s| && r.next == j + 1
              && (if s[i] == OPEN_BRACE then s[j] == CLOSE_BRACE && r.value == Obj([])
                  else s[j] == CLOSE_BRACKET && r.value == Arr([]))
            else if s[i] == OPEN_BRACE then
              ParseMembers(s, j).Ok? && r == Ok(Obj(ParseMembers(s, j).value), ParseMembers(s, j).next)
            else
              ParseItems(s, j).Ok? && r == Ok(Arr(ParseItems(s, j).value), ParseItems(s, j).next)
  {
    var j := SkipWhite(s, i + 1);
    empty := j < |s| && s[j] == if s[i] == OPEN_BRACE then CLOSE_BRACE else CLOSE_BRACKET;
  }

  // ----- Whole texts

  /** `JSON.parse(s)`; `None` stands for the exception it throws. */
  function Parse(s: Text): Option<Value> {
    var value := ParseValue(s, SkipWhite(s, 0));
    if value.Ok? && SkipWhite(s, value.next) == |s| then Some(value.value) else None
  }

  /** `v[key]` on a parsed value: the last member of that name, `None` for `undefined`. */
  function Lookup(members: seq<Member>, key: Text): Option<Value> {
    if members == [] then None
    else
      var last := members[|members| - 1];
      if last.key == key then Some(last.value) else Lookup(members[..|members| - 1], key)
  }

  // ----- Property reads, by index

  ghost predicate LastNamed(members: seq<Member>, key: Text, i: int) {
    0 <= i < |members| && members[i].key == key && forall j :: i < j < |members| ==> members[j].key != key
  }

  /** Reading property `key` of a value other than `undefined` and `null`, for a key that only objects
      have: the value of the last member of that name, or `undefined` if there is none. */
  ghost predicate PropertyIs(v: Value, key: Text, found: Option<Value>) {
    match found
    case None => v.Obj? ==> forall i :: 0 <= i < |v.members| ==> v.members[i].key != key
    case Some(x) => v.Obj? && exists i :: LastNamed(v.members, key, i) && v.members[i].value == x
  }

  lemma {:induction false} LookupMeans(members: seq<Member>, key: Text)
    ensures PropertyIs(Obj(members), key, Lookup(members, key))
  {
    if members != [] {
      var n := |members| - 1;
      var front := members[..n];
      LookupMeans(front, key);
      if members[n].key == key {
        assert LastNamed(members, key, n);
      } else if Lookup(front, key).Some? {
        var i :| LastNamed(front, key, i) && front[i].value == Lookup(front, key).value;
        assert LastNamed(members, key, i);
      }
    }
  }

  /** A property read has one answer. */
  lemma PropertyUnique(v: Value, key: Text, a: Option<Value>, b: Option<Value>)
    requires PropertyIs(v, key, a) && PropertyIs(v, key, b)
    ensures a == b
  {
    if a.Some? && b.Some? {
      var i :| LastNamed(v.members, key, i) && v.members[i].value == a.value;
      var j :| LastNamed(v.members, key, j) && v.members[j].value == b.value;
    }
  }
}
