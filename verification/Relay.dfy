/** The stream relays of the gateway's journal proxy: step machines whose environment may end or
    fail either stream at any point, and the loops that refine them. */
module Relay {
  import opened Units
  import opened Runs

  /** An error value; `nil` is `None` of an `Option<Error>`. */
  datatype Error = EOF | Failure(code: int)

  // ----- The two kinds of stream end

  datatype Received<+M> = Message(message: M) | Failed(error: Error)

  /** A stream that is received from: it delivers its messages and then reports `end` for good. */
  class Receiver<M> {
    const messages: seq<M>
    const end: Error
    var pos: nat

    constructor (messages: seq<M>, end: Error)
      ensures this.messages == messages && this.end == end && pos == 0
    {
      this.messages := messages;
      this.end := end;
      pos := 0;
    }

    method Recv() returns (r: Received<M>)
      requires pos <= |messages|
      modifies this
      ensures old(pos) < |messages| ==> r == Message(messages[old(pos)]) && pos == old(pos) + 1
      ensures old(pos) == |messages| ==> r == Failed(end) && pos == old(pos)
    {
      if pos == |messages| {
        return Failed(end);
      }
      pos := pos + 1;
      return Message(messages[pos - 1]);
    }
  }

  /** A stream that is sent to; `outcome(k)` is what its `k`-th send reports. */
  class Sender<!M> {
    const outcome: nat -> Option<Error>
    var sent: seq<M>
    var attempts: nat

    constructor (outcome: nat -> Option<Error>)
      ensures this.outcome == outcome && sent == [] && attempts == 0
    {
      this.outcome := outcome;
      sent := [];
      attempts := 0;
    }

    method Send(m: M) returns (err: Option<Error>)
      modifies this
      ensures attempts == old(attempts) + 1 && err == outcome(old(attempts))
      ensures sent == if err.None? then old(sent) + [m] else old(sent)
    {
      err := outcome(attempts);
      attempts := attempts + 1;
      if err.None? {
        sent := sent + [m];
      }
    }
  }

  // ----- Read and List: one upstream relayed to one downstream

  datatype CopyPc<M> = Opening | Receiving | Sending(message: M) | Returned(err: Option<Error>)

  /** `produced` is what the upstream delivered, `delivered` what the downstream accepted, and
      `ended` how the upstream ended if it did. */
  datatype CopyState<M> = CopyState(pc: CopyPc<M>, produced: seq<M>, delivered: seq<M>, ended: Option<Error>)

  function CopyInit<M>(): CopyState<M> {
    CopyState(Opening, [], [], None)
  }

  /** One step; the environment chooses between the outcomes of each call. */
  ghost predicate CopyNext<M>(s: CopyState<M>, t: CopyState<M>) {
    match s.pc
    case Opening =>
      || t == s.(pc := Receiving)
      || (t.pc.Returned? && t.pc.err.Some? && t == s.(pc := t.pc))
    case Receiving =>
      || (t.pc.Sending? && t == s.(pc := t.pc, produced := s.produced + [t.pc.message]))
      || t == s.(pc := Returned(None), ended := Some(EOF))
      || (t.pc.Returned? && t.pc.err.Some? && t.pc.err.value != EOF && t == s.(pc := t.pc, ended := t.pc.err))
    case Sending(m) =>
      || t == s.(pc := Receiving, delivered := s.delivered + [m])
      || (t.pc.Returned? && t.pc.err.Some? && t == s.(pc := t.pc))
    case Returned(_) => false
  }

  /** What holds in every state that a run reaches. */
  ghost predicate CopyInv<M>(s: CopyState<M>) {
    && s.delivered <= s.produced && |s.produced| <= |s.delivered| + 1
    && (match s.pc
        case Opening => s.produced == [] && s.ended.None?
        case Receiving => s.delivered == s.produced && s.ended.None?
        case Sending(m) => s.produced == s.delivered + [m] && s.ended.None?
        case Returned(err) =>
          && (err.None? <==> s.ended == Some(EOF))
          && (s.ended.Some? ==> s.delivered == s.produced))
  }

  ghost predicate CopyRun<M>(run: seq<CopyState<M>>) {
    IsRun(CopyInit<M>(), CopyNext<M>, run)
  }

  /** For every interleaving of results and failures: what was delivered is an in-order prefix of
      what was produced, at most one result behind, and a relay that has returned returned nil
      exactly when the upstream ended with EOF, having delivered everything. */
  lemma CopySafety<M(!new)>(run: seq<CopyState<M>>, i: nat)
    requires CopyRun(run) && i < |run|
    ensures CopyInv(run[i])
  {
    Invariant(CopyInit<M>(), CopyNext<M>, run, CopyInv<M>, i);
  }

  ghost predicate CopyGrows<M>(s: CopyState<M>, t: CopyState<M>) {
    s.produced <= t.produced && s.delivered <= t.delivered
  }

  /** Nothing delivered or produced is ever taken back. */
  lemma CopyMonotone<M(!new)>(run: seq<CopyState<M>>, i: nat, j: nat)
    requires CopyRun(run) && i <= j < |run|
    ensures run[i].produced <= run[j].produced && run[i].delivered <= run[j].delivered
  {
    Stretch(CopyInit<M>(), CopyNext<M>, run, CopyInv<M>, CopyGrows<M>, i, j);
  }

  /** The index of the first send that fails, or `n` if none of the first `n` does. */
  function FirstFailure(outcome: nat -> Option<Error>, n: nat): (k: nat)
    ensures k <= n
    ensures forall i: nat :: i < k ==> outcome(i).None?
    ensures k < n ==> outcome(k).Some?
  {
    if n == 0 then 0
    else
      var k := FirstFailure(outcome, n - 1);
      if k < n - 1 || outcome(k).Some? then k else n
  }

  lemma FirstFailureIs(outcome: nat -> Option<Error>, n: nat, k: nat)
    requires k <= n && (k < n ==> outcome(k).Some?)
    requires forall i: nat :: i < k ==> outcome(i).None?
    ensures FirstFailure(outcome, n) == k
  {
  }

  lemma CopyStarts<M>(refused: Option<Error>) returns (run: seq<CopyState<M>>)
    ensures run != [] && CopyRun(run)
    ensures Last(run) == CopyInit().(pc := if refused.Some? then Returned(refused) else Receiving)
  {
    var pc := if refused.Some? then Returned(refused) else Receiving;
    run := Grow(CopyInit<M>(), CopyNext<M>, [CopyInit()], CopyInit().(pc := pc));
  }

  lemma AfterRecv<M>(run: seq<CopyState<M>>, r: Received<M>) returns (longer: seq<CopyState<M>>)
    requires run != [] && CopyRun(run) && Last(run).pc == Receiving
    ensures longer != [] && CopyRun(longer)
    ensures Last(longer) ==
              match r
              case Message(m) => Last(run).(pc := Sending(m), produced := Last(run).produced + [m])
              case Failed(e) => Last(run).(pc := Returned(if e == EOF then None else Some(e)), ended := Some(e))
  {
    var s := Last(run);
    longer := Grow(CopyInit<M>(), CopyNext<M>, run,
      match r
      case Message(m) => s.(pc := Sending(m), produced := s.produced + [m])
      case Failed(e) => s.(pc := Returned(if e == EOF then None else Some(e)), ended := Some(e)));
  }

  lemma AfterSend<M>(run: seq<CopyState<M>>, m: M, err: Option<Error>) returns (longer: seq<CopyState<M>>)
    requires run != [] && CopyRun(run) && Last(run).pc == Sending(m)
    ensures longer != [] && CopyRun(longer)
    ensures Last(longer) == if err.Some? then Last(run).(pc := Returned(err))
                            else Last(run).(pc := Receiving, delivered := Last(run).delivered + [m])
  {
    var s := Last(run);
    longer := Grow(CopyInit<M>(), CopyNext<M>, run,
      if err.Some? then s.(pc := Returned(err)) else s.(pc := Receiving, delivered := s.delivered + [m]));
  }

  /** None of the first `n` sends fails. */
  ghost predicate AllSent(outcome: nat -> Option<Error>, n: nat) {
    forall i: nat :: i < n ==> outcome(i).None?
  }

  lemma SentUpTo(outcome: nat -> Option<Error>, n: nat, k: nat)
    requires k <= n && (k < n ==> outcome(k).Some?) && AllSent(outcome, k)
    ensures FirstFailure(outcome, n) == k
  {
    FirstFailureIs(outcome, n, k);
  }

  lemma NoneSent(outcome: nat -> Option<Error>)
    ensures AllSent(outcome, 0)
  {
  }

  lemma OneSent(outcome: nat -> Option<Error>, n: nat)
    requires AllSent(outcome, n) && outcome(n).None?
    ensures AllSent(outcome, n + 1)
  {
  }

  lemma OneMore<M>(messages: seq<M>, n: nat)
    requires n <= |messages|
    ensures n < |messages| ==> messages[..n + 1] == messages[..n] + [messages[n]]
  {
  }

  /** The loop of `List` and `Read`. It follows the machine, and its result is settled by the first
      send that fails and by how the upstream ends. */
  method Copy<M>(refused: Option<Error>, upstream: Receiver<M>, downstream: Sender<M>)
    returns (err: Option<Error>, ghost run: seq<CopyState<M>>)
    requires upstream.pos == 0 && downstream.sent == [] && downstream.attempts == 0
    modifies upstream, downstream
    ensures run != [] && CopyRun(run) && Last(run).pc == Returned(err)
    ensures Last(run).delivered == downstream.sent
    ensures upstream.pos <= |upstream.messages|
    ensures Last(run).produced == upstream.messages[..upstream.pos]
    ensures refused.Some? ==> err == refused && downstream.attempts == 0 && upstream.pos == 0
    ensures refused.None? ==>
              var k := FirstFailure(downstream.outcome, |upstream.messages|);
              && downstream.sent == upstream.messages[..k]
              && err == if k < |upstream.messages| then downstream.outcome(k)
                        else if upstream.end == EOF then None else Some(upstream.end)
  {
    hide CopyRun, FirstFailure, AllSent;
    run := CopyStarts(refused);
    NoneSent(downstream.outcome);
    if refused.Some? {
      return refused, run;
    }
    while true
      invariant run != [] && CopyRun(run) && Last(run).pc == Receiving
      invariant upstream.pos <= |upstream.messages|
      invariant Last(run).produced == Last(run).delivered == downstream.sent
      invariant downstream.sent == upstream.messages[..upstream.pos]
      invariant downstream.attempts == upstream.pos && AllSent(downstream.outcome, upstream.pos)
      decreases |upstream.messages| - upstream.pos
    {
      ghost var at := upstream.pos;
      OneMore(upstream.messages, at);
      var resp := upstream.Recv();
      run := AfterRecv(run, resp);
      if resp.Failed? {
        SentUpTo(downstream.outcome, |upstream.messages|, at);
        return if resp.error == EOF then None else Some(resp.error), run;
      }
      err := downstream.Send(resp.message);
      run := AfterSend(run, resp.message, err);
      if err.Some? {
        SentUpTo(downstream.outcome, |upstream.messages|, at);
        return err, run;
      }
      OneSent(downstream.outcome, at);
    }
  }
}
