/** Label selectors: the comparator that `sortBy` builds, and the label sets that selectors send. */
module Labels {
  import opened Units

  // ----- JavaScript's order on strings: by code units, a proper prefix first

  function Compare(a: seq<int>, b: seq<int>): (c: int)
    ensures -1 <= c <= 1
  {
    if a == [] && b == [] then 0
    else if a == [] then -1
    else if b == [] then 1
    else if a[0] < b[0] then -1
    else if a[0] > b[0] then 1
    else Compare(a[1..], b[1..])
  }

  lemma {:induction false} CompareZero(a: seq<int>, b: seq<int>)
    ensures Compare(a, b) == 0 <==> a == b
  {
    if a != [] && b != [] {
      CompareZero(a[1..], b[1..]);
      assert a == [a[0]] + a[1..] && b == [b[0]] + b[1..];
    }
  }

  /** `x < y` in JavaScript: a proper prefix comes first, and else the first unit that differs decides. */
  ghost predicate Before(x: seq<int>, y: seq<int>) {
    exists k :: BeforeAt(x, y, k)
  }

  predicate BeforeAt(x: seq<int>, y: seq<int>, k: int) {
    0 <= k <= |x| && k < |y| && x[..k] == y[..k] && (k == |x| || x[k] < y[k])
  }

  lemma {:induction false} CompareMeans(x: seq<int>, y: seq<int>)
    ensures Compare(x, y) < 0 <==> Before(x, y)
  {
    if x == [] || y == [] || x[0] != y[0] {
      if Before(x, y) {
        var k :| BeforeAt(x, y, k);
        if k > 0 { BeforeRest(x, y, k); }
      } else if y != [] {
        assert !BeforeAt(x, y, 0);
      }
    } else {
      CompareMeans(x[1..], y[1..]);
      if Before(x, y) {
        var k :| BeforeAt(x, y, k);
        BeforeRest(x, y, k);
      }
      if Before(x[1..], y[1..]) {
        var k :| BeforeAt(x[1..], y[1..], k);
        assert x[..k + 1] == [x[0]] + x[1..][..k] && y[..k + 1] == [y[0]] + y[1..][..k];
        assert BeforeAt(x, y, k + 1);
      }
    }
  }

  lemma BeforeRest(x: seq<int>, y: seq<int>, k: int)
    requires BeforeAt(x, y, k) && (k > 0 || (x != [] && x[0] == y[0]))
    ensures k > 0 && x != [] && x[0] == y[0] && BeforeAt(x[1..], y[1..], k - 1)
  {
    assert k > 0;
    assert x[0] == x[..k][0] && y[0] == y[..k][0];
    assert x[1..][..k - 1] == x[..k][1..] && y[1..][..k - 1] == y[..k][1..];
  }

  lemma {:induction false} CompareSwap(a: seq<int>, b: seq<int>)
    ensures Compare(b, a) == -Compare(a, b)
  {
    if a != [] && b != [] && a[0] == b[0] { CompareSwap(a[1..], b[1..]); }
  }

  lemma {:induction false} CompareTransitive(a: seq<int>, b: seq<int>, c: seq<int>)
    requires Compare(a, b) <= 0 && Compare(b, c) <= 0
    ensures Compare(a, c) <= 0
    ensures Compare(a, b) < 0 || Compare(b, c) < 0 ==> Compare(a, c) < 0
  {
    if a != [] && b != [] && c != [] && a[0] == b[0] == c[0] {
      CompareTransitive(a[1..], b[1..], c[1..]);
    }
  }

  // ----- sortBy

  /** Lexicographic comparison of two tuples of field values; `less` is the order on values. */
  function CompareTuples<V>(less: (V, V) -> bool, a: seq<V>, b: seq<V>): (c: int)
    requires |a| == |b|
    ensures -1 <= c <= 1
  {
    if a == [] then 0
    else if less(b[0], a[0]) then 1
    else if less(a[0], b[0]) then -1
    else CompareTuples(less, a[1..], b[1..])
  }

  /** The values of the listed fields of a record. */
  function Tuple<T, K, V>(fields: seq<K>, get: (T, K) -> V, r: T): (values: seq<V>)
    ensures |values| == |fields|
  {
    seq(|fields|, i requires 0 <= i < |fields| => get(r, fields[i]))
  }

  /** The comparator that `sortBy(...fields)` returns, on records whose fields are all defined. */
  method SortBy<T, K, V>(fields: seq<K>, get: (T, K) -> V, less: (V, V) -> bool, a: T, b: T) returns (order: int)
    ensures order == CompareTuples(less, Tuple(fields, get, a), Tuple(fields, get, b))
  {
    ghost var x, y := Tuple(fields, get, a), Tuple(fields, get, b);
    for i := 0 to |fields|
      invariant CompareTuples(less, x, y) == CompareTuples(less, x[i..], y[i..])
    {
      var field := fields[i];
      assert x[i..][1..] == x[i + 1..] && y[i..][1..] == y[i + 1..];
      if less(get(b, field), get(a, field)) {
        return 1;
      } else if less(get(a, field), get(b, field)) {
        return -1;
      }
    }
    return 0;
  }

  /** `less` orders these values totally: whatever their types, they can be told apart and lined up. */
  ghost predicate Ordered<V(!new)>(less: (V, V) -> bool, vs: set<V>) {
    && (forall x :: x in vs ==> !less(x, x))
    && (forall x, y :: x in vs && y in vs ==> less(x, y) || less(y, x) || x == y)
    && (forall x, y, z :: x in vs && y in vs && z in vs && less(x, y) && less(y, z) ==> less(x, z))
  }

  /** The first field whose values differ settles the comparison. */
  ghost predicate DiffersFirst<V>(less: (V, V) -> bool, a: seq<V>, b: seq<V>, k: nat) {
    && k < |a| && k < |b| && a[..k] == b[..k] && less(a[k], b[k])
  }

  lemma {:induction false} TuplesLexicographic<V(!new)>(less: (V, V) -> bool, a: seq<V>, b: seq<V>)
    requires |a| == |b| && forall i :: 0 <= i < |a| ==> Ordered(less, {a[i], b[i]})
    ensures CompareTuples(less, a, b) < 0 <==> exists k: nat :: DiffersFirst(less, a, b, k)
    ensures CompareTuples(less, a, b) == 0 <==> a == b
  {
    hide Ordered;
    if a != [] {
      assert {a[0], b[0], b[0]} == {a[0], b[0]};
      FieldOrder(less, a[0], b[0], b[0]);
      var a', b' := a[1..], b[1..];
      assert a == [a[0]] + a' && b == [b[0]] + b';
      forall i | 0 <= i < |a'| ensures Ordered(less, {a'[i], b'[i]}) { assert a'[i] == a[i + 1] && b'[i] == b[i + 1]; }
      TuplesLexicographic(less, a', b');
      if less(a[0], b[0]) {
        assert DiffersFirst(less, a, b, 0);
      }
      forall k: nat | DiffersFirst(less, a, b, k) && k > 0 ensures a[0] == b[0] && DiffersFirst(less, a', b', k - 1) {
        assert a[..k][0] == b[..k][0];
        assert a'[..k - 1] == a[..k][1..] && b'[..k - 1] == b[..k][1..];
      }
      forall k: nat | a[0] == b[0] && DiffersFirst(less, a', b', k) ensures DiffersFirst(less, a, b, k + 1) {
        assert a[..k + 1] == [a[0]] + a'[..k] && b[..k + 1] == [b[0]] + b'[..k];
      }
    }
  }

  lemma FieldOrder<V(!new)>(less: (V, V) -> bool, x: V, y: V, z: V)
    requires Ordered(less, {x, y, z})
    ensures !(less(x, y) && less(y, x)) && (!less(x, y) && !less(y, x) <==> x == y)
    ensures !(less(y, z) && less(z, y)) && (!less(y, z) && !less(z, y) <==> y == z)
    ensures !less(y, x) && !less(z, y) ==> !less(z, x) && (less(x, y) || less(y, z) ==> less(x, z))
  {
    var vs := {x, y, z};
    assert x in vs && y in vs && z in vs;
  }

  /** The comparator is a total preorder for any list of fields whose values are totally ordered:
      zero exactly when all listed fields agree, antisymmetric in sign, and transitive. */
  lemma {:induction false} TuplesPreorder<V(!new)>(less: (V, V) -> bool, a: seq<V>, b: seq<V>, c: seq<V>)
    requires |a| == |b| == |c| && forall i :: 0 <= i < |a| ==> Ordered(less, {a[i], b[i], c[i]})
    ensures CompareTuples(less, a, b) == 0 <==> a == b
    ensures CompareTuples(less, b, a) == -CompareTuples(less, a, b)
    ensures CompareTuples(less, a, b) <= 0 && CompareTuples(less, b, c) <= 0 ==> CompareTuples(less, a, c) <= 0
  {
    hide Ordered;
    if a != [] {
      FieldOrder(less, a[0], b[0], c[0]);
      var a', b', c' := a[1..], b[1..], c[1..];
      forall i | 0 <= i < |a'| ensures Ordered(less, {a'[i], b'[i], c'[i]}) {
        assert a'[i] == a[i + 1] && b'[i] == b[i + 1] && c'[i] == c[i + 1];
      }
      TuplesPreorder(less, a', b', c');
      assert a == [a[0]] + a' && b == [b[0]] + b';
    }
  }

  // ----- Labels and label sets

  datatype Label = Label(name: Text, value: Text)

  datatype LabelField = NameField | ValueField

  function FieldOf(l: Label, f: LabelField): Text {
    match f
    case NameField => l.name
    case ValueField => l.value
  }

  const SORT_FIELDS: seq<LabelField> := [NameField, ValueField]

  predicate TextLess(x: Text, y: Text) { Compare(x, y) < 0 }

  lemma TextOrdered(vs: set<Text>)
    ensures Ordered(TextLess, vs)
  {
    forall x: Text, y: Text | x in vs && y in vs ensures TextLess(x, y) || TextLess(y, x) || x == y {
      CompareZero(x, y);
      CompareSwap(x, y);
    }
    forall x: Text, y: Text, z: Text | x in vs && y in vs && z in vs && TextLess(x, y) && TextLess(y, z)
      ensures TextLess(x, z)
    {
      CompareTransitive(x, y, z);
    }
    forall x: Text | x in vs ensures !TextLess(x, x) { CompareZero(x, x); }
  }

  function CompareLabels(a: Label, b: Label): int {
    CompareTuples(TextLess, Tuple(SORT_FIELDS, FieldOf, a), Tuple(SORT_FIELDS, FieldOf, b))
  }

  lemma LabelTuple(l: Label)
    ensures Tuple(SORT_FIELDS, FieldOf, l) == [l.name, l.value]
  {
    assert SORT_FIELDS[0] == NameField && SORT_FIELDS[1] == ValueField;
    var t := Tuple(SORT_FIELDS, FieldOf, l);
    assert t[0] == FieldOf(l, NameField) && t[1] == FieldOf(l, ValueField);
  }

  lemma LabelOrder(a: Label, b: Label, c: Label)
    ensures CompareLabels(a, b) == 0 <==> a == b
    ensures CompareLabels(b, a) == -CompareLabels(a, b)
    ensures CompareLabels(a, b) <= 0 && CompareLabels(b, c) <= 0 ==> CompareLabels(a, c) <= 0
  {
    var x, y, z := Tuple(SORT_FIELDS, FieldOf, a), Tuple(SORT_FIELDS, FieldOf, b), Tuple(SORT_FIELDS, FieldOf, c);
    forall i | 0 <= i < 2 ensures Ordered(TextLess, {x[i], y[i], z[i]}) { TextOrdered({x[i], y[i], z[i]}); }
    TuplesPreorder(TextLess, x, y, z);
    LabelTuple(a);
    LabelTuple(b);
    if x == y {
      assert x[0] == a.name && y[0] == b.name && x[1] == a.value && y[1] == b.value;
    }
  }

  /** The order of (name, value), by code units. */
  ghost predicate LabelBefore(a: Label, b: Label) {
    Before(a.name, b.name) || (a.name == b.name && Before(a.value, b.value))
  }

  ghost predicate Sorted(ls: seq<Label>) {
    forall i, j :: 0 <= i < j < |ls| ==> !LabelBefore(ls[j], ls[i])
  }

  /** What the broker asks of a label set: unique labels, sorted over name and value. */
  ghost predicate StrictlySorted(ls: seq<Label>) {
    forall i, j :: 0 <= i < j < |ls| ==> LabelBefore(ls[i], ls[j])
  }

  /** The same, as the comparator sees it. */
  ghost predicate Ascending(ls: seq<Label>) {
    forall i, j :: 0 <= i < j < |ls| ==> CompareLabels(ls[i], ls[j]) <= 0
  }

  ghost predicate StrictlyAscending(ls: seq<Label>) {
    forall i, j :: 0 <= i < j < |ls| ==> CompareLabels(ls[i], ls[j]) < 0
  }

  /** The comparator puts a label first exactly if its name, or on equal names its value, comes first. */
  lemma ComparatorMeans(a: Label, b: Label)
    ensures CompareLabels(a, b) < 0 <==> LabelBefore(a, b)
  {
    hide Compare, Before;
    LabelTuple(a);
    LabelTuple(b);
    CompareZero(a.name, b.name);
    CompareSwap(a.name, b.name);
    CompareMeans(a.name, b.name);
    CompareMeans(a.value, b.value);
    CompareSwap(a.value, b.value);
    TwoFields(TextLess, a.name, a.value, b.name, b.value);
  }

  lemma TwoFields<V>(less: (V, V) -> bool, a: V, b: V, c: V, d: V)
    ensures CompareTuples(less, [a, b], [c, d]) ==
            if less(c, a) then 1 else if less(a, c) then -1
            else if less(d, b) then 1 else if less(b, d) then -1 else 0
  {
    var x, y, x', y' := [a, b], [c, d], [b], [d];
    assert x[1..] == x' && y[1..] == y';
    assert CompareTuples(less, x', y') == if less(d, b) then 1 else if less(b, d) then -1 else 0;
  }

  lemma SortedIsAscending(ls: seq<Label>)
    ensures Sorted(ls) <==> Ascending(ls)
    ensures StrictlySorted(ls) <==> StrictlyAscending(ls)
  {
    hide CompareLabels, LabelBefore;
    forall i, j | 0 <= i < j < |ls|
      ensures LabelBefore(ls[j], ls[i]) <==> CompareLabels(ls[i], ls[j]) > 0
      ensures LabelBefore(ls[i], ls[j]) <==> CompareLabels(ls[i], ls[j]) < 0
    {
      ComparatorMeans(ls[j], ls[i]);
      ComparatorMeans(ls[i], ls[j]);
      LabelOrder(ls[i], ls[j], ls[i]);
    }
  }

  ghost predicate Distinct(ls: seq<Label>) {
    forall i, j :: 0 <= i < j < |ls| ==> ls[i] != ls[j]
  }

  /** What a label set is: the labels in order, each as often as it was given. */
  ghost predicate IsLabelSet(s: seq<Label>, ls: seq<Label>) {
    Sorted(s) && multiset(s) == multiset(ls)
  }

  lemma InsertSorted(ls: seq<Label>, k: nat, l: Label)
    requires Ascending(ls) && k <= |ls|
    requires k > 0 ==> CompareLabels(ls[k - 1], l) <= 0
    requires k < |ls| ==> CompareLabels(l, ls[k]) <= 0
    ensures Ascending(ls[..k] + [l] + ls[k..])
  {
    hide CompareLabels;
    var all := ls[..k] + [l] + ls[k..];
    forall i, j | 0 <= i < j < |all| ensures CompareLabels(all[i], all[j]) <= 0 {
      if i < k && j == k {
        if i < k - 1 { LabelOrder(ls[i], ls[k - 1], l); }
      } else if i == k {
        if j > k + 1 { LabelOrder(l, ls[k], ls[j - 1]); }
      }
    }
  }

  /** `sortBy("name", "value")` */
  method SortByNameValue(a: Label, b: Label) returns (order: int)
    ensures order == CompareLabels(a, b)
  {
    order := SortBy(SORT_FIELDS, FieldOf, TextLess, a, b);
  }

  method InsertLabel(l: Label, ls: seq<Label>) returns (longer: seq<Label>)
    requires Ascending(ls)
    ensures Ascending(longer) && multiset(longer) == multiset(ls) + multiset{l}
  {
    hide CompareLabels, Ascending;
    var k := |ls|;
    while k > 0
      invariant 0 <= k <= |ls|
      invariant k < |ls| ==> CompareLabels(l, ls[k]) <= 0
    {
      var order := SortByNameValue(ls[k - 1], l);
      LabelOrder(ls[k - 1], l, l);
      if order <= 0 {
        break;
      }
      k := k - 1;
    }
    InsertSorted(ls, k, l);
    assert ls == ls[..k] + ls[k..];
    longer := ls[..k] + [l] + ls[k..];
  }

  /** The sort that `toLabelSet` calls on its copy: labels are lined up by the comparator. */
  method SortLabels(ls: seq<Label>) returns (sorted: seq<Label>)
    ensures IsLabelSet(sorted, ls)
  {
    sorted := [];
    for i := 0 to |ls|
      invariant Ascending(sorted) && multiset(sorted) == multiset(ls[..i])
    {
      assert ls[..i + 1] == ls[..i] + [ls[i]];
      sorted := InsertLabel(ls[i], sorted);
    }
    assert ls[..|ls|] == ls;
    SortedIsAscending(sorted);
  }

  /** There is only one sorted permutation of a list of labels. */
  lemma {:induction false} AscendingUnique(a: seq<Label>, b: seq<Label>)
    requires Ascending(a) && Ascending(b) && multiset(a) == multiset(b)
    ensures a == b
  {
    hide CompareLabels;
    hide Ascending;
    if a == [] {
      assert |multiset(b)| == 0;
    } else {
      assert a[0] in multiset(b) && |multiset(b)| == |a|;
      assert b[0] in multiset(a);
      Smallest(a, b[0]);
      Smallest(b, a[0]);
      LabelOrder(a[0], b[0], a[0]);
      FirstAndRest(a);
      FirstAndRest(b);
      AscendingUnique(a[1..], b[1..]);
    }
  }

  lemma FirstAndRest(a: seq<Label>)
    requires Ascending(a) && a != []
    ensures a == [a[0]] + a[1..] && Ascending(a[1..])
    ensures multiset(a[1..]) == multiset(a) - multiset{a[0]}
  {
    hide CompareLabels;
    assert a == [a[0]] + a[1..];
  }

  lemma Smallest(a: seq<Label>, x: Label)
    requires Ascending(a) && x in a
    ensures CompareLabels(a[0], x) <= 0
  {
    hide CompareLabels;
    var k :| 0 <= k < |a| && a[k] == x;
    if k == 0 { LabelOrder(x, x, x); }
  }

  lemma SortedUnique(a: seq<Label>, b: seq<Label>)
    requires Sorted(a) && Sorted(b) && multiset(a) == multiset(b)
    ensures a == b
  {
    hide Sorted, Ascending;
    SortedIsAscending(a);
    SortedIsAscending(b);
    AscendingUnique(a, b);
  }

  /** The label set is an order-canonical form: equal for any two lists with the same labels. */
  lemma Canonical(s: seq<Label>, a: seq<Label>, t: seq<Label>, b: seq<Label>)
    requires IsLabelSet(s, a) && IsLabelSet(t, b)
    ensures s == t <==> multiset(a) == multiset(b)
  {
    hide CompareLabels;
    if multiset(a) == multiset(b) {
      SortedUnique(s, t);
    }
  }

  /** It meets the broker's contract exactly when no label was pushed twice. */
  lemma ContractMet(s: seq<Label>, ls: seq<Label>)
    requires IsLabelSet(s, ls)
    ensures StrictlySorted(s) <==> Distinct(ls)
  {
    hide CompareLabels, Sorted, StrictlySorted;
    SortedIsAscending(s);
    if StrictlyAscending(s) {
      forall i, j | 0 <= i < j < |s| ensures s[i] != s[j] {
        LabelOrder(s[i], s[j], s[i]);
      }
      DistinctCounts(s);
      CountsDistinct(ls);
    }
    if Distinct(ls) {
      DistinctCounts(ls);
      CountsDistinct(s);
      forall i, j | 0 <= i < j < |s| ensures CompareLabels(s[i], s[j]) < 0 {
        LabelOrder(s[i], s[j], s[i]);
      }
    }
  }

  lemma {:induction false} DistinctCounts(ls: seq<Label>)
    requires Distinct(ls)
    ensures forall l :: multiset(ls)[l] <= 1
  {
    if ls != [] {
      DistinctCounts(ls[1..]);
      assert ls == [ls[0]] + ls[1..];
      assert ls[0] !in ls[1..];
    }
  }

  lemma {:induction false} CountsDistinct(ls: seq<Label>)
    requires forall l :: multiset(ls)[l] <= 1
    ensures Distinct(ls)
  {
    if ls != [] {
      var tail := ls[1..];
      assert ls == [ls[0]] + tail;
      assert forall l :: multiset(tail)[l] <= multiset(ls)[l];
      CountsDistinct(tail);
      assert multiset(tail)[ls[0]] == 0;
      forall i, j | 0 <= i < j < |ls| ensures ls[i] != ls[j] {
        if i == 0 {
          assert tail[j - 1] in multiset(tail);
        } else {
          assert tail[i - 1] != tail[j - 1];
        }
      }
    }
  }

  /** A label pushed twice makes a set that the broker's contract forbids. */
  lemma RepeatedLabel(s: seq<Label>, l: Label)
    requires IsLabelSet(s, [l, l])
    ensures s == [l, l] && !StrictlySorted(s)
  {
    hide CompareLabels, Sorted, StrictlySorted;
    LabelOrder(l, l, l);
    SortedIsAscending([l, l]);
    SortedIsAscending(s);
    AscendingUnique(s, [l, l]);
    assert s[0] == s[1];
  }
}
