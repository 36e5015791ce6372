/** Runs of a step machine: what holds at the start and survives every step holds throughout. */
module Runs {

  ghost predicate IsRun<S>(init: S, next: (S, S) -> bool, run: seq<S>) {
    && run != [] && run[0] == init
    && forall i :: 0 <= i < |run| - 1 ==> next(run[i], run[i + 1])
  }

  ghost function Last<S>(run: seq<S>): S
    requires run != []
  {
    run[|run| - 1]
  }

  lemma {:induction false} Invariant<S(!new)>(init: S, next: (S, S) -> bool, run: seq<S>, inv: S -> bool, i: nat)
    requires IsRun(init, next, run) && i < |run|
    requires inv(init) && forall s, t :: inv(s) && next(s, t) ==> inv(t)
    ensures inv(run[i])
  {
    if i > 0 {
      Invariant(init, next, run, inv, i - 1);
      assert next(run[i - 1], run[i - 1 + 1]);
    }
  }

  /** What every step relates is related across any stretch of a run. */
  lemma {:induction false} Stretch<S(!new)>(init: S, next: (S, S) -> bool, run: seq<S>, inv: S -> bool,
                                            rel: (S, S) -> bool, i: nat, j: nat)
    requires IsRun(init, next, run) && i <= j < |run|
    requires inv(init) && forall s, t :: inv(s) && next(s, t) ==> inv(t) && rel(s, t)
    requires forall s :: rel(s, s)
    requires forall s, t, u :: rel(s, t) && rel(t, u) ==> rel(s, u)
    ensures rel(run[i], run[j])
    decreases j - i
  {
    if i < j {
      Stretch(init, next, run, inv, rel, i, j - 1);
      Invariant(init, next, run, inv, j - 1);
      assert next(run[j - 1], run[j - 1 + 1]);
      assert rel(run[i], run[j - 1]) && rel(run[j - 1], run[j]);
    }
  }

  ghost function Grow<S>(init: S, next: (S, S) -> bool, run: seq<S>, t: S): (longer: seq<S>)
    requires run != [] && IsRun(init, next, run) && next(Last(run), t)
    ensures longer != [] && IsRun(init, next, longer) && Last(longer) == t
  {
    RunGrows(init, next, run, t);
    run + [t]
  }

  lemma RunGrows<S>(init: S, next: (S, S) -> bool, run: seq<S>, t: S)
    requires IsRun(init, next, run) && next(Last(run), t)
    ensures IsRun(init, next, run + [t])
  {
    var longer := run + [t];
    forall i | 0 <= i < |longer| - 1 ensures next(longer[i], longer[i + 1]) {
      if i < |run| - 1 {
        assert longer[i] == run[i] && longer[i + 1] == run[i + 1];
      } else {
        assert longer[i] == Last(run) && longer[i + 1] == t;
      }
    }
  }
}
