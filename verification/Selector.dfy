/** Label selectors: builders that push labels in place and the label set sent in a request. */
module Selector {
  import opened Units
  import opened Labels

  const SLASH: Unit := 0x2F

  class LabelSelector {
    var labels: seq<Label>

    constructor ()
      ensures labels == []
    {
      labels := [];
    }

    method Collection(v: Text)
      modifies this
      ensures labels == old(labels) + [Label(Chars("estuary.dev/collection"), v)]
    {
      labels := labels + [Label(Chars("estuary.dev/collection"), v)];
    }

    method Name(v: Text)
      modifies this
      ensures labels == old(labels) + [Label(Chars("name"), v)]
    {
      labels := labels + [Label(Chars("name"), v)];
    }

    method Task(v: Text)
      modifies this
      ensures labels == old(labels) + [Label(Chars("estuary.dev/task-name"), v)]
    {
      labels := labels + [Label(Chars("estuary.dev/task-name"), v)];
    }

    method Id(v: Text)
      modifies this
      ensures labels == old(labels) + [Label(Chars("id"), v)]
    {
      labels := labels + [Label(Chars("id"), v)];
    }

    /** A selector for the journals under a prefix, which always ends in a slash. */
    static method Prefix(v: Text) returns (sel: LabelSelector)
      ensures fresh(sel) && |sel.labels| == 1 && sel.labels[0].name == Chars("prefix")
      ensures var p := sel.labels[0].value;
              && p != [] && p[|p| - 1] == '/' as int
              && (p == v || (p == v + ['/' as int] && (v == [] || v[|v| - 1] != '/' as int)))
    {
      sel := new LabelSelector();
      sel.labels := [Label(Chars("prefix"), if v != [] && v[|v| - 1] == SLASH then v else v + [SLASH])];
    }

    /** Sorts a copy: the stored labels keep the order they were pushed in. */
    method ToLabelSet() returns (sorted: seq<Label>)
      ensures IsLabelSet(sorted, labels)
    {
      sorted := SortLabels(labels);
    }
  }

  // ----- Any interleaving of calls

  datatype Call = CallCollection(v: Text) | CallName(v: Text) | CallTask(v: Text) | CallId(v: Text) | CallToLabelSet

  function LabelsOf(call: Call): seq<Label> {
    match call
    case CallCollection(v) => [Label(Chars("estuary.dev/collection"), v)]
    case CallName(v) => [Label(Chars("name"), v)]
    case CallTask(v) => [Label(Chars("estuary.dev/task-name"), v)]
    case CallId(v) => [Label(Chars("id"), v)]
    case CallToLabelSet => []
  }

  /** The labels that some calls push, in order. */
  function Pushed(calls: seq<Call>): seq<Label> {
    if calls == [] then []
    else
      Pushed(calls[..|calls| - 1]) + LabelsOf(calls[|calls| - 1])
  }

  /** The number of label sets that some calls return. */
  function Returns(calls: seq<Call>): nat {
    if calls == [] then 0
    else Returns(calls[..|calls| - 1]) + (if calls[|calls| - 1].CallToLabelSet? then 1 else 0)
  }

  /** One more call. */
  lemma OneMore(calls: seq<Call>, n: nat)
    requires n < |calls|
    ensures Pushed(calls[..n + 1]) == Pushed(calls[..n]) + LabelsOf(calls[n])
    ensures Returns(calls[..n + 1]) == Returns(calls[..n]) + (if calls[n].CallToLabelSet? then 1 else 0)
  {
    assert calls[..n + 1][..n] == calls[..n];
  }

  /** The `k`-th label set returned is the sorted form of the labels the selector started with and
      all labels pushed before that call. */
  ghost predicate SetsSorted(start: seq<Label>, calls: seq<Call>, sets: seq<seq<Label>>) {
    && |sets| == Returns(calls)
    && forall i :: 0 <= i < |calls| && calls[i].CallToLabelSet? ==>
         Returns(calls[..i]) < |sets| && IsLabelSet(sets[Returns(calls[..i])], start + Pushed(calls[..i]))
  }

  lemma SetsGrow(start: seq<Label>, calls: seq<Call>, n: nat, sets: seq<seq<Label>>, sorted: seq<Label>)
    requires n < |calls| && SetsSorted(start, calls[..n], sets)
    requires calls[n].CallToLabelSet? ==> IsLabelSet(sorted, start + Pushed(calls[..n]))
    ensures SetsSorted(start, calls[..n + 1], if calls[n].CallToLabelSet? then sets + [sorted] else sets)
  {
    hide IsLabelSet, Pushed, Returns;
    OneMore(calls, n);
    var now := calls[..n + 1];
    var more := if calls[n].CallToLabelSet? then sets + [sorted] else sets;
    forall i | 0 <= i < |now| && now[i].CallToLabelSet?
      ensures Returns(now[..i]) < |more| && IsLabelSet(more[Returns(now[..i])], start + Pushed(now[..i]))
    {
      if i == n {
        assert now[..n] == calls[..n];
      } else {
        assert now[..i] == calls[..n][..i] && calls[..n][i] == now[i];
      }
    }
  }

  /** Whatever the calls, on a new selector or on one that `prefix` or earlier calls have filled: the
      stored labels are those it started with and then the pushed ones in push order, and every label
      set returned is the sorted form of the labels stored by then. */
  method Script(sel: LabelSelector, calls: seq<Call>) returns (sets: seq<seq<Label>>)
    modifies sel
    ensures sel.labels == old(sel.labels) + Pushed(calls)
    ensures SetsSorted(old(sel.labels), calls, sets)
  {
    hide Pushed, Chars, IsLabelSet, SetsSorted;
    ghost var start := sel.labels;
    sets := [];
    NoCalls(start, calls);
    for n := 0 to |calls|
      invariant sel.labels == start + Pushed(calls[..n]) && SetsSorted(start, calls[..n], sets)
    {
      OneMore(calls, n);
      Assoc(start, Pushed(calls[..n]), LabelsOf(calls[n]));
      ghost var before := sets;
      var sorted: seq<Label> := [];
      match calls[n] {
        case CallCollection(v) => sel.Collection(v);
        case CallName(v) => sel.Name(v);
        case CallTask(v) => sel.Task(v);
        case CallId(v) => sel.Id(v);
        case CallToLabelSet =>
          sorted := sel.ToLabelSet();
          sets := sets + [sorted];
          assert start + Pushed(calls[..n]) + [] == start + Pushed(calls[..n]);
      }
      SetsGrow(start, calls, n, before, sorted);
    }
    assert calls[..|calls|] == calls;
  }

  lemma NoCalls(start: seq<Label>, calls: seq<Call>)
    ensures start + Pushed(calls[..0]) == start && SetsSorted(start, calls[..0], [])
  {
  }

  /** A label set that one interleaving of calls returns equals one that another returns exactly if
      the same labels were stored by then, in whatever order, as often. */
  lemma SameLabelsSameSet(startA: seq<Label>, a: seq<Call>, setsA: seq<seq<Label>>, i: nat,
                          startB: seq<Label>, b: seq<Call>, setsB: seq<seq<Label>>, j: nat)
    requires SetsSorted(startA, a, setsA) && i < |a| && a[i].CallToLabelSet?
    requires SetsSorted(startB, b, setsB) && j < |b| && b[j].CallToLabelSet?
    ensures setsA[Returns(a[..i])] == setsB[Returns(b[..j])] <==>
            multiset(startA + Pushed(a[..i])) == multiset(startB + Pushed(b[..j]))
  {
    hide IsLabelSet, Pushed, Returns;
    Canonical(setsA[Returns(a[..i])], startA + Pushed(a[..i]), setsB[Returns(b[..j])], startB + Pushed(b[..j]));
  }
}
