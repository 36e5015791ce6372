/** How the order that label sets are sorted in relates to code-point order and to the byte order
    of the encoded labels. */
module LabelOrder {
  import opened Units
  import opened Utf8
  import opened Labels

  lemma {:induction false} CommonPrefix(p: seq<int>, x: seq<int>, y: seq<int>)
    ensures Compare(p + x, p + y) == Compare(x, y)
  {
    if p == [] {
      assert p + x == x && p + y == y;
    } else {
      assert (p + x)[1..] == p[1..] + x && (p + y)[1..] == p[1..] + y;
      CommonPrefix(p[1..], x, y);
    }
  }

  /** A first difference inside `a` and `b` settles the comparison, whatever follows. */
  lemma {:induction false} FirstDifference(a: seq<int>, b: seq<int>, k: nat, x: seq<int>, y: seq<int>)
    requires k < |a| && k < |b| && a[..k] == b[..k] && a[k] < b[k]
    ensures Compare(a + x, b + y) == -1 && Compare(b + y, a + x) == 1
  {
    var p, s, t := a[..k], a[k..] + x, b[k..] + y;
    assert a + x == p + s && b + y == p + t;
    CommonPrefix(p, s, t);
    CommonPrefix(p, t, s);
  }

  // ----- UTF-8

  lemma EncodeOrder1(c: Scalar, d: Scalar) returns (k: nat)
    requires c < d
    ensures k < |Encode1(c)| && k < |Encode1(d)|
    ensures Encode1(c)[..k] == Encode1(d)[..k] && Encode1(c)[k] < Encode1(d)[k]
  {
    var a, b := Encode1(c), Encode1(d);
    k := 0;
    if |a| == |b| {
      k := SameLength(c, d);
    }
  }

  lemma SameLength(c: Scalar, d: Scalar) returns (k: nat)
    requires c < d && |Encode1(c)| == |Encode1(d)|
    ensures k < |Encode1(c)|
    ensures Encode1(c)[..k] == Encode1(d)[..k] && Encode1(c)[k] < Encode1(d)[k]
  {
    var a, b := Encode1(c), Encode1(d);
    LeadingBits(c);
    LeadingBits(d);
    if a[0] != b[0] {
      k := 0;
    } else if a[1] != b[1] {
      k := 1;
    } else if a[2] != b[2] {
      k := 2;
    } else {
      k := 3;
    }
  }

  /** The byte order of UTF-8 is code-point order, for all texts. */
  lemma {:induction false} ByteOrder(x: seq<Scalar>, y: seq<Scalar>)
    ensures Compare(Encode(x), Encode(y)) == Compare(x, y)
    decreases |x|
  {
    hide Encode1;
    if x != [] && y != [] {
      var c, d, x', y' := x[0], y[0], Encode(x[1..]), Encode(y[1..]);
      if c == d {
        CommonPrefix(Encode1(c), x', y');
        ByteOrder(x[1..], y[1..]);
      } else if c < d {
        var k := EncodeOrder1(c, d);
        FirstDifference(Encode1(c), Encode1(d), k, x', y');
      } else {
        var k := EncodeOrder1(d, c);
        FirstDifference(Encode1(d), Encode1(c), k, y', x');
      }
    }
  }

  // ----- UTF-16

  /** Code units order a supplementary scalar below the last part of the basic plane. */
  predicate Inverted(c: Scalar, d: Scalar) {
    (c >= 0x10000 && 0xE000 <= d < 0x10000) || (d >= 0x10000 && 0xE000 <= c < 0x10000)
  }

  /** The first scalars in which two texts differ are ones that code units invert. */
  predicate FirstDifferenceInverted(x: seq<Scalar>, y: seq<Scalar>) {
    x != [] && y != []
    && (if x[0] == y[0] then FirstDifferenceInverted(x[1..], y[1..]) else Inverted(x[0], y[0]))
  }

  lemma UnitsOrder1(c: Scalar, d: Scalar, x: seq<int>, y: seq<int>)
    requires c < d
    ensures Compare(UnitsOf(c) + x, UnitsOf(d) + y) == if Inverted(c, d) then 1 else -1
    ensures Compare(UnitsOf(d) + y, UnitsOf(c) + x) == if Inverted(c, d) then -1 else 1
  {
    var a, b := UnitsOf(c), UnitsOf(d);
    if Inverted(c, d) {
      FirstDifference(b, a, 0, y, x);
    } else if a[0] != b[0] {
      FirstDifference(a, b, 0, x, y);
    } else {
      assert a[..1] == b[..1];
      FirstDifference(a, b, 1, x, y);
    }
  }

  /** The code-unit order of `sortBy` is code-point order, except on two texts whose first difference
      is a supplementary scalar against one from U+E000 to U+FFFF: on those it is the opposite. */
  lemma {:induction false} UnitOrder(x: seq<Scalar>, y: seq<Scalar>)
    ensures Compare(Utf16(x), Utf16(y)) == if FirstDifferenceInverted(x, y) then -Compare(x, y) else Compare(x, y)
    ensures FirstDifferenceInverted(x, y) ==> Compare(x, y) != 0
    ensures Compare(Utf16(x), Utf16(y)) == Compare(x, y) <==> !FirstDifferenceInverted(x, y)
    decreases |x|
  {
    hide UnitsOf, Inverted;
    if x != [] { UnitsNotEmpty(x[0]); }
    if y != [] { UnitsNotEmpty(y[0]); }
    if x != [] && y != [] {
      var c, d, x', y' := x[0], y[0], Utf16(x[1..]), Utf16(y[1..]);
      if c == d {
        CommonPrefix(UnitsOf(c), x', y');
        UnitOrder(x[1..], y[1..]);
      } else if c < d {
        UnitsOrder1(c, d, x', y');
      } else {
        UnitsOrder1(d, c, y', x');
        InvertedSymmetric(c, d);
      }
    }
  }

  lemma UnitsNotEmpty(c: Scalar)
    ensures UnitsOf(c) != []
  {
  }

  lemma InvertedSymmetric(c: Scalar, d: Scalar)
    ensures Inverted(c, d) == Inverted(d, c)
  {
  }

  /** U+FFFF against U+10000: code units and code points disagree. */
  lemma OrdersDisagree()
    ensures Compare(Utf16([0xFFFF]), Utf16([0x10000])) == 1 && Compare([0xFFFF], [0x10000]) == -1
  {
    UnitsOrder1(0xFFFF, 0x10000, [], []);
    assert [0xFFFF][1..] == [] && [0x10000][1..] == [];
    assert UnitsOf(0xFFFF) + [] == Utf16([0xFFFF]) && UnitsOf(0x10000) + [] == Utf16([0x10000]);
  }

  // ----- Labels

  predicate IsHigh(u: int) { 0xD800 <= u < 0xDC00 }

  predicate IsLow(u: int) { 0xDC00 <= u < 0xE000 }

  /** The scalars of a JavaScript string; a surrogate without its partner has none and becomes U+FFFD. */
  function ScalarsOf(t: Text): seq<Scalar> {
    if t == [] then []
    else if |t| > 1 && IsHigh(t[0]) && IsLow(t[1]) then
      [0x10000 + (t[0] - 0xD800) * 0x400 + (t[1] - 0xDC00)] + ScalarsOf(t[2..])
    else [if IsHigh(t[0]) || IsLow(t[0]) then REPLACEMENT else t[0]] + ScalarsOf(t[1..])
  }

  predicate WellFormedText(t: Text) { Utf16(ScalarsOf(t)) == t }

  lemma {:induction false} ScalarsOfUtf16(cs: seq<Scalar>)
    ensures ScalarsOf(Utf16(cs)) == cs
  {
    if cs != [] {
      ScalarsOfUtf16(cs[1..]);
      FirstScalarOf(cs[0], Utf16(cs[1..]));
      assert cs == [cs[0]] + cs[1..];
    }
  }

  lemma {:induction false} FirstScalarOf(c: Scalar, rest: Text)
    ensures ScalarsOf(UnitsOf(c) + rest) == [c] + ScalarsOf(rest)
  {
    var u := UnitsOf(c);
    assert (u + rest)[|u|..] == rest;
    if c >= 0x10000 { assert (u + rest)[0] == u[0] && (u + rest)[1] == u[1]; }
  }

  /** The well-formed texts are exactly those that hold a sequence of scalars. */
  lemma WellFormedTexts(t: Text)
    ensures WellFormedText(t) <==> exists cs: seq<Scalar> :: t == Utf16(cs)
  {
    if cs: seq<Scalar> :| t == Utf16(cs) {
      ScalarsOfUtf16(cs);
    }
  }

  predicate WellFormedLabel(l: Label) { WellFormedText(l.name) && WellFormedText(l.value) }

  /** A label as the pair of its strings in UTF-8. */
  function EncodedLabel(l: Label): (pair: seq<seq<Byte>>)
    ensures |pair| == 2
  {
    [Encode(ScalarsOf(l.name)), Encode(ScalarsOf(l.value))]
  }

  predicate BytesLess(x: seq<Byte>, y: seq<Byte>) { Compare(x, y) < 0 }

  function CompareBytes(a: Label, b: Label): int {
    CompareTuples(BytesLess, EncodedLabel(a), EncodedLabel(b))
  }

  /** The order of (name, value), by the bytes of their encodings. */
  ghost predicate BytesBefore(a: Label, b: Label) {
    var x, y := EncodedLabel(a), EncodedLabel(b);
    Before(x[0], y[0]) || (x[0] == y[0] && Before(x[1], y[1]))
  }

  ghost predicate SortedBytes(ls: seq<Label>) {
    forall i, j :: 0 <= i < j < |ls| ==> !BytesBefore(ls[j], ls[i])
  }

  lemma CompareBytesMeans(a: Label, b: Label)
    ensures CompareBytes(a, b) > 0 <==> BytesBefore(b, a)
  {
    hide Compare, Before, Encode, ScalarsOf;
    var x, y := EncodedLabel(a), EncodedLabel(b);
    CompareZero(x[0], y[0]);
    CompareSwap(x[0], y[0]);
    CompareMeans(y[0], x[0]);
    CompareMeans(y[1], x[1]);
    TwoFields(BytesLess, x[0], x[1], y[0], y[1]);
  }

  /** Two labels whose strings first differ in a pair of scalars that code units invert. */
  predicate InvertedLabels(a: Label, b: Label) {
    if a.name != b.name then FirstDifferenceInverted(ScalarsOf(a.name), ScalarsOf(b.name))
    else FirstDifferenceInverted(ScalarsOf(a.value), ScalarsOf(b.value))
  }

  lemma {:induction false} InvertedTexts(x: seq<Scalar>, y: seq<Scalar>)
    ensures FirstDifferenceInverted(x, y) == FirstDifferenceInverted(y, x)
  {
    if x != [] && y != [] && x[0] == y[0] { InvertedTexts(x[1..], y[1..]); }
  }

  lemma InvertedSwap(a: Label, b: Label)
    ensures InvertedLabels(a, b) == InvertedLabels(b, a)
  {
    hide FirstDifferenceInverted;
    InvertedTexts(ScalarsOf(a.name), ScalarsOf(b.name));
    InvertedTexts(ScalarsOf(a.value), ScalarsOf(b.value));
  }

  /** On two strings, byte order is code-unit order unless they are inverted. */
  lemma TextOrders(x: Text, y: Text)
    requires WellFormedText(x) && WellFormedText(y)
    ensures var bytes := Compare(Encode(ScalarsOf(x)), Encode(ScalarsOf(y)));
            var inverted := FirstDifferenceInverted(ScalarsOf(x), ScalarsOf(y));
            && bytes == (if inverted then -Compare(x, y) else Compare(x, y))
            && (inverted ==> Compare(x, y) != 0)
    ensures Compare(x, y) == 0 <==> x == y
  {
    hide Encode, Compare, FirstDifferenceInverted, ScalarsOf;
    ByteOrder(ScalarsOf(x), ScalarsOf(y));
    UnitOrder(ScalarsOf(x), ScalarsOf(y));
    CompareZero(x, y);
  }

  /** On two labels, byte order over (name, value) is the order of `sortBy` unless they are inverted. */
  lemma LabelOrders(a: Label, b: Label)
    requires WellFormedLabel(a) && WellFormedLabel(b)
    ensures CompareBytes(a, b) == if InvertedLabels(a, b) then -CompareLabels(a, b) else CompareLabels(a, b)
    ensures InvertedLabels(a, b) ==> CompareLabels(a, b) != 0
  {
    hide Encode, Compare, FirstDifferenceInverted, ScalarsOf, WellFormedText, CompareTuples;
    LabelTuple(a);
    LabelTuple(b);
    TextOrders(a.name, b.name);
    TextOrders(a.value, b.value);
    CompareSwap(a.name, b.name);
    CompareSwap(a.value, b.value);
    CompareSwap(Encode(ScalarsOf(a.name)), Encode(ScalarsOf(b.name)));
    CompareSwap(Encode(ScalarsOf(a.value)), Encode(ScalarsOf(b.value)));
    TwoFields(TextLess, a.name, a.value, b.name, b.value);
    TwoFields(BytesLess, Encode(ScalarsOf(a.name)), Encode(ScalarsOf(a.value)),
                 Encode(ScalarsOf(b.name)), Encode(ScalarsOf(b.value)));
  }

  /** A label set is sorted byte-wise over its encoded names and values if and only if no two of its
      labels are inverted. */
  lemma SortedBytewise(s: seq<Label>, ls: seq<Label>)
    requires IsLabelSet(s, ls) && forall l :: l in ls ==> WellFormedLabel(l)
    ensures SortedBytes(s) <==> forall a, b :: a in ls && b in ls ==> !InvertedLabels(a, b)
  {
    hide CompareLabels, CompareBytes, InvertedLabels, WellFormedLabel, BytesBefore, Sorted;
    SortedIsAscending(s);
    forall l ensures l in s <==> l in ls { assert l in multiset(s) <==> l in multiset(ls); }
    forall i, j | 0 <= i < j < |s| ensures BytesBefore(s[j], s[i]) <==> InvertedLabels(s[i], s[j]) {
      assert s[i] in s && s[j] in s;
      LabelOrders(s[i], s[j]);
      CompareBytesMeans(s[i], s[j]);
    }
    if SortedBytes(s) {
      forall a, b | a in ls && b in ls ensures !InvertedLabels(a, b) {
        var i :| 0 <= i < |s| && s[i] == a;
        var j :| 0 <= j < |s| && s[j] == b;
        InvertedSwap(a, b);
        LabelOrder(a, b, a);
        if i == j { LabelOrders(a, b); }
      }
    }
  }

  /** Two labels in the order of `sortBy`, told apart by U+10000 against U+FFFF. */
  const MISORDERED: seq<Label> := [Label([], Utf16([0x10000])), Label([], Utf16([0xFFFF]))]

  /** A label set that holds no label twice and is still not sorted byte-wise. */
  lemma NotBytewise()
    ensures IsLabelSet(MISORDERED, MISORDERED) && StrictlySorted(MISORDERED)
    ensures forall l :: l in MISORDERED ==> WellFormedLabel(l)
    ensures !SortedBytes(MISORDERED)
  {
    hide CompareLabels, CompareBytes, Utf16, ScalarsOf, Compare, BytesBefore, Sorted, StrictlySorted;
    var a, b := MISORDERED[0], MISORDERED[1];
    SortedIsAscending(MISORDERED);
    CompareBytesMeans(a, b);
    ScalarsOfUtf16([0x10000]);
    ScalarsOfUtf16([0xFFFF]);
    NoScalars();
    OrdersDisagree();
    CompareSwap(a.value, b.value);
    CompareZero(a.name, b.name);
    LabelTuple(a);
    LabelTuple(b);
    CompareTwo(a, b);
    LabelOrders(a, b);
    InvertedPair();
  }

  lemma NoScalars()
    ensures ScalarsOf([]) == [] && Utf16([]) == []
  {
  }

  lemma CompareTwo(a: Label, b: Label)
    requires a.name == b.name
    ensures CompareLabels(a, b) == Compare(a.value, b.value)
  {
    hide Compare;
    LabelTuple(a);
    LabelTuple(b);
    CompareZero(a.name, b.name);
    CompareSwap(a.value, b.value);
    TwoFields(TextLess, a.name, a.value, b.name, b.value);
  }

  lemma InvertedPair()
    ensures FirstDifferenceInverted([0x10000], [0xFFFF])
  {
  }
}
