/** A scanner that follows only strings, escapes and bracket depth. Every text the parser accepts
    scans back to where it started; a text cut at its front cannot. The scanner also weighs the
    string contents, which shows what decoding damage does to a parsed value. */
module JsonScan {
  import opened Units
  import opened Json

  datatype Mode = Structural | InString | InEscape | InHex(left: nat, code: int)

  datatype Scan = Bad | At(mode: Mode, depth: nat, weight: int)

  const ORIGIN := At(Structural, 0, 0)

  function ScanStructural(depth: nat, weight: int, u: int): Scan {
    if u == QUOTE then At(InString, depth, weight)
    else if u == BACKSLASH then Bad
    else if u == OPEN_BRACE || u == OPEN_BRACKET then At(Structural, depth + 1, weight)
    else if u == CLOSE_BRACE || u == CLOSE_BRACKET then
      if depth == 0 then Bad else At(Structural, depth - 1, weight)
    else At(Structural, depth, weight + WeightOf(u))
  }

  function ScanOne(st: Scan, u: int): Scan {
    if st.Bad? then Bad
    else
      match st.mode
      case Structural => ScanStructural(st.depth, st.weight, u)
      case InString =>
        if u == QUOTE then At(Structural, st.depth, st.weight)
        else if u == BACKSLASH then At(InEscape, st.depth, st.weight)
        else At(InString, st.depth, st.weight + WeightOf(u))
      case InEscape =>
        if u == LETTER_U then At(InHex(4, 0), st.depth, st.weight)
        else if Unescape(u) == -1 then Bad
        else At(InString, st.depth, st.weight)
      case InHex(left, code) =>
        if !IsHex(u) then Bad
        else if left <= 1 then At(InString, st.depth, st.weight + WeightOf(code * 16 + HexValue(u)))
        else At(InHex(left - 1, code * 16 + HexValue(u)), st.depth, st.weight)
  }

  function Run(st: Scan, s: seq<int>): Scan
    decreases |s|
  {
    if s == [] then st else Run(ScanOne(st, s[0]), s[1..])
  }

  lemma {:induction false} RunConcat(st: Scan, a: seq<int>, b: seq<int>)
    ensures Run(st, a + b) == Run(Run(st, a), b)
    decreases |a|
  {
    hide ScanOne;
    if a == [] {
      assert a + b == b;
    } else {
      assert (a + b)[1..] == a[1..] + b;
      RunConcat(ScanOne(st, a[0]), a[1..], b);
    }
  }

  lemma {:induction false} RunBad(s: seq<int>)
    ensures Run(Bad, s) == Bad
  {
    if s != [] { RunBad(s[1..]); }
  }

  function Shift(st: Scan, depth: nat, weight: int): Scan {
    if st.Bad? then Bad else At(st.mode, st.depth + depth, st.weight + weight)
  }

  /** Starting deeper or heavier shifts a whole scan. */
  lemma ScanShift(st: Scan, u: int, depth: nat, weight: int)
    requires ScanOne(st, u) != Bad
    ensures ScanOne(Shift(st, depth, weight), u) == Shift(ScanOne(st, u), depth, weight)
  {
  }

  lemma {:induction false} RunShift(st: Scan, s: seq<int>, depth: nat, weight: int)
    requires Run(st, s) != Bad
    ensures Run(Shift(st, depth, weight), s) == Shift(Run(st, s), depth, weight)
    decreases |s|
  {
    hide ScanOne, Shift;
    if s != [] {
      var next := ScanOne(st, s[0]);
      RunBad(s[1..]);
      ScanShift(st, s[0], depth, weight);
      RunShift(next, s[1..], depth, weight);
    }
  }

  /** Only the ASCII skeleton of a text steers a scan that succeeds; the rest only adds weight. */
  lemma {:induction false} RunSkeleton(st: Scan, s: seq<int>)
    requires Run(st, s) != Bad
    ensures Shift(Run(st, Ascii(s)), 0, Weight(s)) == Run(st, s)
    decreases |s|
  {
    if s == [] {
      assert st == Run(st, s);
    } else {
      var next := ScanOne(st, s[0]);
      if next == Bad { RunBad(s[1..]); }
      RunSkeleton(next, s[1..]);
      var rest := Ascii(s[1..]);
      if s[0] < 0x80 {
        assert Ascii(s) == [s[0]] + rest;
        assert Ascii(s)[1..] == rest;
      } else {
        assert Ascii(s) == [] + rest == rest;
        assert next == Shift(st, 0, WeightOf(s[0]));
        ShiftBack(st, rest, WeightOf(s[0]));
      }
    }
  }

  lemma ShiftBack(st: Scan, s: seq<int>, weight: int)
    requires Run(Shift(st, 0, weight), s) != Bad
    ensures Run(Shift(st, 0, weight), s) == Shift(Run(st, s), 0, weight)
  {
    RunShift(Shift(st, 0, weight), s, 0, -weight);
    assert Shift(Shift(st, 0, weight), 0, -weight) == st;
  }

  // ----- The scan of what the parser accepts

  function RunAt(st: Scan, s: Text, i: nat, j: nat): Scan
    requires i <= j <= |s|
    decreases j - i
  {
    if i == j then st else RunAt(ScanOne(st, s[i]), s, i + 1, j)
  }

  lemma {:induction false} RunAtSlice(st: Scan, s: Text, i: nat, j: nat)
    requires i <= j <= |s|
    ensures RunAt(st, s, i, j) == Run(st, s[i..j])
    decreases j - i
  {
    hide ScanOne;
    if i < j {
      assert s[i..j] == [s[i]] + s[i + 1..j];
      assert s[i..j][1..] == s[i + 1..j];
      RunAtSlice(ScanOne(st, s[i]), s, i + 1, j);
    }
  }

  lemma {:induction false} RunAtSplit(st: Scan, s: Text, i: nat, m: nat, j: nat)
    requires i <= m <= j <= |s|
    ensures RunAt(st, s, i, j) == RunAt(RunAt(st, s, i, m), s, m, j)
    decreases m - i
  {
    hide ScanOne;
    if i < m {
      RunAtSplit(ScanOne(st, s[i]), s, i + 1, m, j);
    }
  }

  /** Characters that mean nothing to the scanner outside strings. */
  predicate IsPlain(u: int) {
    && 0 <= u < 0x80
    && u != QUOTE && u != BACKSLASH && u != OPEN_BRACE && u != CLOSE_BRACE && u != OPEN_BRACKET && u != CLOSE_BRACKET
  }

  lemma {:induction false} RunPlain(s: Text, i: nat, j: nat, depth: nat, weight: int)
    requires i <= j <= |s| && forall k :: i <= k < j ==> IsPlain(s[k])
    ensures RunAt(At(Structural, depth, weight), s, i, j) == At(Structural, depth, weight)
    decreases j - i
  {
    if i < j { RunPlain(s, i + 1, j, depth, weight); }
  }

  lemma NumberPlain(s: Text, i: nat)
    requires i <= |s| && EndOfNumber(s, i).Ok?
    ensures forall k :: i <= k < EndOfNumber(s, i).next ==> IsPlain(s[k])
  {
  }

  /** The weight of all the string contents of a value. */
  function ValueWeight(v: Value): int {
    match v
    case Str(chars) => Weight(chars)
    case Arr(items) => ItemsWeight(items)
    case Obj(members) => MembersWeight(members)
    case _ => 0
  }

  function ItemsWeight(items: seq<Value>): int {
    if items == [] then 0 else ValueWeight(items[0]) + ItemsWeight(items[1..])
  }

  function MembersWeight(members: seq<Member>): int {
    if members == [] then 0
    else Weight(members[0].key) + ValueWeight(members[0].value) + MembersWeight(members[1..])
  }

  lemma {:induction false} ScanChars(s: Text, i: nat, depth: nat, weight: int)
    requires i <= |s| && ParseChars(s, i).Ok?
    ensures var r := ParseChars(s, i);
            RunAt(At(InString, depth, weight), s, i, r.next) == At(Structural, depth, weight + Weight(r.value))
    decreases |s| - i
  {
    var r := ParseChars(s, i);
    var st := At(InString, depth, weight);
    if s[i] == QUOTE {
      assert RunAt(ScanOne(st, s[i]), s, i + 1, i + 1) == At(Structural, depth, weight);
    } else if s[i] != BACKSLASH {
      var rest := ParseChars(s, i + 1);
      ScanChars(s, i + 1, depth, weight + WeightOf(s[i]));
      WeightConcat([s[i]], rest.value);
      assert [s[i]][1..] == [];
    } else if s[i + 1] == LETTER_U {
      var code := HexUnit(s[i + 2], s[i + 3], s[i + 4], s[i + 5]);
      var rest := ParseChars(s, i + 6);
      ScanHex(s, i, depth, weight);
      ScanChars(s, i + 6, depth, weight + WeightOf(code));
      RunAtSplit(st, s, i, i + 6, r.next);
      WeightConcat([code], rest.value);
      assert [code][1..] == [];
    } else {
      var u := Unescape(s[i + 1]);
      var rest := ParseChars(s, i + 2);
      ScanChars(s, i + 2, depth, weight);
      assert RunAt(st, s, i, i + 2) == st by {
        assert RunAt(At(InEscape, depth, weight), s, i + 1, i + 2) == st;
      }
      RunAtSplit(st, s, i, i + 2, r.next);
      WeightConcat([u], rest.value);
      assert [u][1..] == [];
    }
  }

  lemma ScanHex(s: Text, i: nat, depth: nat, weight: int)
    requires i + 6 <= |s| && s[i] == BACKSLASH && s[i + 1] == LETTER_U
    requires IsHex(s[i + 2]) && IsHex(s[i + 3]) && IsHex(s[i + 4]) && IsHex(s[i + 5])
    ensures RunAt(At(InString, depth, weight), s, i, i + 6)
         == At(InString, depth, weight + WeightOf(HexUnit(s[i + 2], s[i + 3], s[i + 4], s[i + 5])))
  {
    var a, b, c, d := HexValue(s[i + 2]), HexValue(s[i + 3]), HexValue(s[i + 4]), HexValue(s[i + 5]);
    var st5 := At(InHex(1, (a * 16 + b) * 16 + c), depth, weight);
    assert RunAt(st5, s, i + 5, i + 6) == ScanOne(st5, s[i + 5]);
    var st4 := At(InHex(2, a * 16 + b), depth, weight);
    assert RunAt(st4, s, i + 4, i + 6) == RunAt(st5, s, i + 5, i + 6);
    var st3 := At(InHex(3, a), depth, weight);
    assert RunAt(st3, s, i + 3, i + 6) == RunAt(st4, s, i + 4, i + 6);
    var st2 := At(InHex(4, 0), depth, weight);
    assert RunAt(st2, s, i + 2, i + 6) == RunAt(st3, s, i + 3, i + 6);
    assert RunAt(At(InEscape, depth, weight), s, i + 1, i + 6) == RunAt(st2, s, i + 2, i + 6);
  }

  lemma ScanString(s: Text, i: nat, depth: nat, weight: int)
    requires i < |s| && s[i] == QUOTE && ParseChars(s, i + 1).Ok?
    ensures var r := ParseChars(s, i + 1);
            RunAt(At(Structural, depth, weight), s, i, r.next) == At(Structural, depth, weight + Weight(r.value))
  {
    ScanChars(s, i + 1, depth, weight);
  }

  lemma ScalarPlain(s: Text, i: nat)
    requires i < |s| && ParseValue(s, i).Ok?
    requires s[i] != OPEN_BRACE && s[i] != OPEN_BRACKET && s[i] != QUOTE
    ensures ValueWeight(ParseValue(s, i).value) == 0
    ensures forall k :: i <= k < ParseValue(s, i).next ==> IsPlain(s[k])
  {
    if Matches(s, i, TRUE_WORD) {
      WordPlain(s, i, TRUE_WORD);
    } else if Matches(s, i, FALSE_WORD) {
      WordPlain(s, i, FALSE_WORD);
    } else if Matches(s, i, NULL_WORD) {
      WordPlain(s, i, NULL_WORD);
    } else {
      NumberPlain(s, i);
    }
  }

  lemma WordPlain(s: Text, i: nat, word: Text)
    requires Matches(s, i, word) && forall k :: 0 <= k < |word| ==> IsPlain(word[k])
    ensures forall k :: i <= k < i + |word| ==> IsPlain(s[k])
  {
    forall k | i <= k < i + |word| ensures IsPlain(s[k]) {
      assert s[i + (k - i)] == word[k - i];
    }
  }

  /** White space and one plain separator between two pieces leave the scan alone. */
  lemma ScanGap(s: Text, i: nat, j: nat, depth: nat, weight: int)
    requires i <= j < |s| && IsPlain(s[j])
    requires forall k :: i <= k < j ==> IsWhite(s[k])
    ensures RunAt(At(Structural, depth, weight), s, i, SkipWhite(s, j + 1)) == At(Structural, depth, weight)
  {
    RunPlain(s, i, SkipWhite(s, j + 1), depth, weight);
  }

  /** A value scans back to the depth it started at and adds exactly its own weight. */
  lemma {:induction false} ScanValue(s: Text, i: nat, depth: nat, weight: int)
    requires i <= |s| && ParseValue(s, i).Ok?
    ensures var r := ParseValue(s, i);
            RunAt(At(Structural, depth, weight), s, i, r.next) == At(Structural, depth, weight + ValueWeight(r.value))
    decreases |s| - i, 0
  {
    hide RunAt;
    var r := ParseValue(s, i);
    if s[i] == OPEN_BRACE || s[i] == OPEN_BRACKET {
      ScanBody(s, i, depth + 1, weight);
      ScanBrackets(s, i, r.next, depth, weight, ValueWeight(r.value));
    } else if s[i] == QUOTE {
      ScanString(s, i, depth, weight);
    } else {
      ScalarPlain(s, i);
      RunPlain(s, i, r.next, depth, weight);
    }
  }

  lemma ScanBrackets(s: Text, i: nat, j: nat, depth: nat, weight: int, added: int)
    requires i + 1 < j <= |s|
    requires s[i] == OPEN_BRACE || s[i] == OPEN_BRACKET
    requires s[j - 1] == CLOSE_BRACE || s[j - 1] == CLOSE_BRACKET
    requires RunAt(At(Structural, depth + 1, weight), s, i + 1, j - 1) == At(Structural, depth + 1, weight + added)
    ensures RunAt(At(Structural, depth, weight), s, i, j) == At(Structural, depth, weight + added)
  {
    var st, inner := At(Structural, depth, weight), At(Structural, depth + 1, weight + added);
    assert RunAt(st, s, i, j) == RunAt(At(Structural, depth + 1, weight), s, i + 1, j);
    RunAtSplit(At(Structural, depth + 1, weight), s, i + 1, j - 1, j);
    assert RunAt(inner, s, j - 1, j) == ScanOne(inner, s[j - 1]);
  }

  /** What stands between the brackets of an array or object stays at or above its own depth. */
  lemma {:induction false} ScanBody(s: Text, i: nat, depth: nat, weight: int)
    requires i < |s| && (s[i] == OPEN_BRACE || s[i] == OPEN_BRACKET) && ParseValue(s, i).Ok?
    ensures var r := ParseValue(s, i);
            && i + 1 < r.next
            && (s[r.next - 1] == CLOSE_BRACE || s[r.next - 1] == CLOSE_BRACKET)
            && RunAt(At(Structural, depth, weight), s, i + 1, r.next - 1)
               == At(Structural, depth, weight + ValueWeight(r.value))
    decreases |s| - i - 1, 3
  {
    hide RunAt, ParseValue, ParseItems, ParseMembers;
    var r := ParseValue(s, i);
    var j := SkipWhite(s, i + 1);
    var empty := BodyParts(s, i);
    RunPlain(s, i + 1, j, depth, weight);
    if !empty {
      if s[i] == OPEN_BRACE {
        ScanMembers(s, j, depth, weight);
      } else {
        ScanItems(s, j, depth, weight);
      }
      RunAtSplit(At(Structural, depth, weight), s, i + 1, j, r.next - 1);
    }
  }

  lemma {:induction false} ScanItems(s: Text, i: nat, depth: nat, weight: int)
    requires i <= |s| && ParseItems(s, i).Ok?
    ensures var r := ParseItems(s, i);
            && s[r.next - 1] == CLOSE_BRACKET
            && RunAt(At(Structural, depth, weight), s, i, r.next - 1)
               == At(Structural, depth, weight + ItemsWeight(r.value))
    decreases |s| - i, 1
  {
    hide RunAt, ParseItems, ParseValue, SkipWhite;
    var st := At(Structural, depth, weight);
    var first, j, rest := ItemsParts(s, i);
    var mid := weight + ValueWeight(first.value);
    ScanValue(s, i, depth, weight);
    if s[j] == CLOSE_BRACKET {
      RunPlain(s, first.next, j, depth, mid);
      RunAtSplit(st, s, i, first.next, j);
      assert [first.value][1..] == [];
    } else {
      var k := SkipWhite(s, j + 1);
      ScanGap(s, first.next, j, depth, mid);
      RunAtSplit(st, s, i, first.next, k);
      ScanItems(s, k, depth, mid);
      RunAtSplit(st, s, i, k, rest.next - 1);
      assert ([first.value] + rest.value)[1..] == rest.value;
    }
  }

  lemma {:induction false} ScanMember(s: Text, i: nat, depth: nat, weight: int)
    requires i <= |s| && ParseMember(s, i).Ok?
    ensures var r := ParseMember(s, i);
            RunAt(At(Structural, depth, weight), s, i, r.next)
            == At(Structural, depth, weight + Weight(r.value.key) + ValueWeight(r.value.value))
    decreases |s| - i, 1
  {
    hide RunAt, ParseMember, ParseChars, ParseValue, SkipWhite;
    var st := At(Structural, depth, weight);
    var key, j, value := MemberParts(s, i);
    var k := SkipWhite(s, j + 1);
    ScanString(s, i, depth, weight);
    ScanGap(s, key.next, j, depth, weight + Weight(key.value));
    RunAtSplit(st, s, i, key.next, k);
    ScanValue(s, k, depth, weight + Weight(key.value));
    RunAtSplit(st, s, i, k, value.next);
  }

  lemma {:induction false} ScanMembers(s: Text, i: nat, depth: nat, weight: int)
    requires i <= |s| && ParseMembers(s, i).Ok?
    ensures var r := ParseMembers(s, i);
            && s[r.next - 1] == CLOSE_BRACE
            && RunAt(At(Structural, depth, weight), s, i, r.next - 1)
               == At(Structural, depth, weight + MembersWeight(r.value))
    decreases |s| - i, 2
  {
    hide RunAt, ParseMembers, ParseMember, SkipWhite;
    var st := At(Structural, depth, weight);
    var first, j, rest := MembersParts(s, i);
    var mid := weight + Weight(first.value.key) + ValueWeight(first.value.value);
    ScanMember(s, i, depth, weight);
    if s[j] == CLOSE_BRACE {
      RunPlain(s, first.next, j, depth, mid);
      RunAtSplit(st, s, i, first.next, j);
      assert [first.value][1..] == [];
    } else {
      var k := SkipWhite(s, j + 1);
      ScanGap(s, first.next, j, depth, mid);
      RunAtSplit(st, s, i, first.next, k);
      ScanMembers(s, k, depth, mid);
      RunAtSplit(st, s, i, k, rest.next - 1);
      assert ([first.value] + rest.value)[1..] == rest.value;
    }
  }
}
