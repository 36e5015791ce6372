/** `JournalProxy.Append`: requests flow from the client to the upstream until the client ends its
    stream; then the upstream's one response flows back. */
module AppendRelay {
  import opened Units
  import opened Runs
  import opened Relay

  datatype Request = Request(journal: string, content: seq<Byte>)

  /** The one response of an append; only its identity matters to the relay. */
  datatype Response = Response(status: int, body: seq<Byte>)

  datatype Capability = APPEND

  /** The claims the upstream call is authorized with: a capability and the labels selected. */
  datatype Claims = Claims(capability: Capability, labels: seq<(string, string)>)

  function ClaimsFor(first: Request): Claims {
    Claims(APPEND, [("name", first.journal)])
  }

  // ----- The machine

  datatype Pc =
    | ReceiveFirst
    | Open
    | SendOn(request: Request)
    | ReceiveNext
    | CloseAndReceive
    | Answer(response: Response)
    | Finished(err: Option<Error>)

  /** What happened so far: requests received from the client and forwarded upstream, whether the
      client ended its stream, the claims, the closes of the upstream, the response the upstream
      returned and the responses the client was sent. */
  datatype State = State(
    pc: Pc,
    received: seq<Request>,
    forwarded: seq<Request>,
    ended: bool,
    claims: Option<Claims>,
    closes: nat,
    reply: Option<Response>,
    answers: seq<Response>)

  function Init(): State {
    State(ReceiveFirst, [], [], false, None, 0, None, [])
  }

  ghost predicate Fails(s: State, t: State) {
    t.pc.Finished? && t.pc.err.Some? && t == s.(pc := t.pc)
  }

  /** One step; the environment chooses between the outcomes of each call. */
  ghost predicate Next(s: State, t: State) {
    match s.pc
    case ReceiveFirst =>
      || (|t.received| == 1
          && t == s.(pc := Open, received := t.received, claims := Some(ClaimsFor(t.received[0]))))
      || t == s.(pc := Finished(Some(EOF)), ended := true)
      || (Fails(s, t) && t.pc.err.value != EOF)
    case Open =>
      || (s.received != [] && t == s.(pc := SendOn(s.received[|s.received| - 1])))
      || Fails(s, t)
    case SendOn(request) =>
      || t == s.(pc := ReceiveNext, forwarded := s.forwarded + [request])
      || Fails(s, t)
    case ReceiveNext =>
      || (t.pc.SendOn? && t == s.(pc := t.pc, received := s.received + [t.pc.request]))
      || t == s.(pc := CloseAndReceive, ended := true)
      || (Fails(s, t) && t.pc.err.value != EOF)
    case CloseAndReceive =>
      || (t.pc.Answer? && t == s.(pc := t.pc, closes := s.closes + 1, reply := Some(t.pc.response)))
      || (t.pc.Finished? && t.pc.err.Some? && t == s.(pc := t.pc, closes := s.closes + 1))
    case Answer(response) =>
      t.pc.Finished? && t == s.(pc := t.pc, answers := s.answers + [response])
    case Finished(_) => false
  }

  ghost predicate AppendRun(run: seq<State>) {
    IsRun(Init(), Next, run)
  }

  // ----- What every reachable state satisfies

  ghost predicate Inv(s: State) {
    && s.forwarded <= s.received && |s.received| <= |s.forwarded| + 1
    && (s.claims == if s.received == [] then None else Some(ClaimsFor(s.received[0])))
    && (s.answers != [] ==> s.pc.Finished?)
    && (match s.pc
        case ReceiveFirst => s.received == [] && !s.ended
        case Open => |s.received| == 1 && s.forwarded == [] && !s.ended
        case SendOn(request) => s.received == s.forwarded + [request] && !s.ended
        case ReceiveNext => s.received == s.forwarded != [] && !s.ended
        case CloseAndReceive => s.received == s.forwarded != [] && s.ended
        case Answer(response) => s.received == s.forwarded != [] && s.ended && s.reply == Some(response)
        case Finished(err) =>
          && (err.None? ==> s.answers != [])
          && (s.answers != [] || s.closes > 0 ==> s.received == s.forwarded != [] && s.ended)
          && (s.answers != [] ==> s.closes == 1 && s.reply.Some? && s.answers == [s.reply.value]))
    && (s.pc.Answer? ==> s.closes == 1)
    && (!s.pc.Answer? && !s.pc.Finished? ==> s.closes == 0 && s.reply.None?)
    && s.closes <= 1
  }

  lemma InvKept(s: State, t: State)
    requires Inv(s) && Next(s, t)
    ensures Inv(t)
  {
  }

  /** Safety, in every reachable state of every run. */
  lemma RunInv(run: seq<State>, i: nat)
    requires AppendRun(run) && i < |run|
    ensures Inv(run[i])
  {
    hide Next, Inv;
    forall s, t | Inv(s) && Next(s, t) ensures Inv(t) { InvKept(s, t); }
    InvAtStart();
    Invariant(Init(), Next, run, Inv, i);
  }

  lemma InvAtStart()
    ensures Inv(Init())
  {
  }

  /** The claims allow appending and include one label: the name of the request's journal. */
  predicate NamesJournal(claims: Option<Claims>, first: Request) {
    claims.Some? && claims.value.capability == APPEND && claims.value.labels == [("name", first.journal)]
  }

  /** What was sent upstream is an in-order prefix of what the client sent, at most one request
      behind; and by the time anything is forwarded the claims name the first request's journal. */
  lemma Safety(run: seq<State>, i: nat)
    requires AppendRun(run) && i < |run|
    ensures run[i].forwarded <= run[i].received && |run[i].received| <= |run[i].forwarded| + 1
    ensures run[i].forwarded != [] ==> NamesJournal(run[i].claims, run[i].received[0])
  {
    RunInv(run, i);
  }

  ghost predicate Grows(s: State, t: State) {
    && s.received <= t.received && s.forwarded <= t.forwarded
    && (s.claims.Some? ==> t.claims == s.claims)
    && s.closes <= t.closes && s.answers <= t.answers
  }

  lemma NextGrows(s: State, t: State)
    requires Inv(s) && Next(s, t)
    ensures Grows(s, t)
  {
  }

  /** Claims, once made, never change, and no trace is ever taken back. */
  lemma Monotone(run: seq<State>, i: nat, j: nat)
    requires AppendRun(run) && i <= j < |run|
    ensures run[i].received <= run[j].received && run[i].forwarded <= run[j].forwarded
    ensures run[i].claims.Some? ==> run[j].claims == run[i].claims
    ensures run[i].closes <= run[j].closes && run[i].answers <= run[j].answers
  {
    hide Next, Inv;
    forall s, t | Inv(s) && Next(s, t) ensures Inv(t) && Grows(s, t) {
      InvKept(s, t);
      NextGrows(s, t);
    }
    InvAtStart();
    Stretch(Init(), Next, run, Inv, Grows, i, j);
  }

  /** If an answer is attempted, the client had ended its stream, every request was forwarded
      exactly once, the upstream was closed exactly once and the answer is its response; and a run
      that returned nil did attempt it. */
  lemma Completion(run: seq<State>, i: nat)
    requires AppendRun(run) && i < |run|
    ensures run[i].answers != [] ==>
              && run[i].ended && run[i].forwarded == run[i].received != []
              && run[i].closes == 1 && run[i].reply.Some? && run[i].answers == [run[i].reply.value]
    ensures run[i].pc == Finished(None) ==> run[i].answers != []
  {
    RunInv(run, i);
  }

  // ----- Termination

  /** How many steps lead to a state that has not returned. */
  function StepsTo(s: State): int {
    var n := |s.received|;
    match s.pc
    case ReceiveFirst => 0
    case Open => 1
    case SendOn(_) => 2 * n
    case ReceiveNext => 2 * n + 1
    case CloseAndReceive => 2 * n + 2
    case Answer(_) => 2 * n + 3
    case Finished(_) => 2 * n + 4
  }

  lemma StepTaken(s: State, t: State)
    requires Inv(s) && Next(s, t)
    ensures !s.pc.Finished?
    ensures if t.pc.Finished? then StepsTo(s) + 1 <= StepsTo(t) else StepsTo(s) + 1 == StepsTo(t)
  {
  }

  lemma {:induction false} StepsExact(run: seq<State>, i: nat)
    requires AppendRun(run) && i < |run|
    ensures if run[i].pc.Finished? then i <= StepsTo(run[i]) && i == |run| - 1 else i == StepsTo(run[i])
  {
    hide Next, Inv, StepsTo;
    if i > 0 {
      StepsExact(run, i - 1);
      RunInv(run, i - 1);
      assert Next(run[i - 1], run[i - 1 + 1]);
      StepTaken(run[i - 1], run[i]);
    } else {
      assert StepsTo(Init()) == 0 by { NoSteps(); }
    }
    if run[i].pc.Finished? && i < |run| - 1 {
      assert Next(run[i], run[i + 1]);
      RunInv(run, i);
      StepTaken(run[i], run[i + 1]);
    }
  }

  lemma NoSteps()
    ensures StepsTo(Init()) == 0
  {
  }

  /** A run in which the client sends `n` requests has at most 2n + 5 states. */
  lemma RunLength(run: seq<State>)
    requires AppendRun(run)
    ensures |run| <= 2 * |Last(run).received| + 5
  {
    StepsExact(run, |run| - 1);
  }

  // ----- The steps of the machine, as the outcomes of the calls that the code makes

  lemma AfterFirst(run: seq<State>, r: Received<Request>) returns (longer: seq<State>)
    requires run != [] && AppendRun(run) && Last(run) == Init()
    ensures longer != [] && AppendRun(longer)
    ensures Last(longer) == if r.Message? then Last(run).(pc := Open, received := [r.message],
                                                          claims := Some(ClaimsFor(r.message)))
                            else Last(run).(pc := Finished(Some(r.error)), ended := r.error == EOF)
  {
    var s := Last(run);
    longer := Grow(Init(), Next, run,
      if r.Message? then s.(pc := Open, received := [r.message], claims := Some(ClaimsFor(r.message)))
      else s.(pc := Finished(Some(r.error)), ended := r.error == EOF));
  }

  lemma AfterOpen(run: seq<State>, req: Request, err: Option<Error>) returns (longer: seq<State>)
    requires run != [] && AppendRun(run) && Last(run).pc == Open && Last(run).received == [req]
    ensures longer != [] && AppendRun(longer)
    ensures Last(longer) == Last(run).(pc := if err.Some? then Finished(err) else SendOn(req))
  {
    longer := Grow(Init(), Next, run, Last(run).(pc := if err.Some? then Finished(err) else SendOn(req)));
  }

  lemma AfterSend(run: seq<State>, req: Request, err: Option<Error>) returns (longer: seq<State>)
    requires run != [] && AppendRun(run) && Last(run).pc == SendOn(req)
    ensures longer != [] && AppendRun(longer)
    ensures Last(longer) == if err.Some? then Last(run).(pc := Finished(err))
                            else Last(run).(pc := ReceiveNext, forwarded := Last(run).forwarded + [req])
  {
    var s := Last(run);
    longer := Grow(Init(), Next, run,
      if err.Some? then s.(pc := Finished(err)) else s.(pc := ReceiveNext, forwarded := s.forwarded + [req]));
  }

  lemma AfterReceive(run: seq<State>, r: Received<Request>) returns (longer: seq<State>)
    requires run != [] && AppendRun(run) && Last(run).pc == ReceiveNext
    ensures longer != [] && AppendRun(longer)
    ensures Last(longer) ==
              match r
              case Message(m) => Last(run).(pc := SendOn(m), received := Last(run).received + [m])
              case Failed(e) =>
                if e == EOF then Last(run).(pc := CloseAndReceive, ended := true)
                else Last(run).(pc := Finished(Some(e)))
  {
    var s := Last(run);
    longer := Grow(Init(), Next, run,
      match r
      case Message(m) => s.(pc := SendOn(m), received := s.received + [m])
      case Failed(e) => if e == EOF then s.(pc := CloseAndReceive, ended := true) else s.(pc := Finished(Some(e))));
  }

  lemma AfterClose(run: seq<State>, r: Received<Response>) returns (longer: seq<State>)
    requires run != [] && AppendRun(run) && Last(run).pc == CloseAndReceive && Last(run).closes == 0
    ensures longer != [] && AppendRun(longer)
    ensures Last(longer) == if r.Message? then Last(run).(pc := Answer(r.message), closes := 1,
                                                          reply := Some(r.message))
                            else Last(run).(pc := Finished(Some(r.error)), closes := 1)
  {
    var s := Last(run);
    longer := Grow(Init(), Next, run,
      if r.Message? then s.(pc := Answer(r.message), closes := 1, reply := Some(r.message))
      else s.(pc := Finished(Some(r.error)), closes := 1));
  }

  lemma AfterAnswer(run: seq<State>, resp: Response, err: Option<Error>) returns (longer: seq<State>)
    requires run != [] && AppendRun(run) && Last(run).pc == Answer(resp) && Last(run).answers == []
    ensures longer != [] && AppendRun(longer)
    ensures Last(longer) == Last(run).(pc := Finished(err), answers := [resp])
  {
    longer := Grow(Init(), Next, run, Last(run).(pc := Finished(err), answers := [resp]));
  }

  // ----- The code

  /** The client's side of an append: its requests, and the one answer it is sent. */
  class ClientStream {
    const requests: Receiver<Request>
    const outcome: Option<Error>
    var answers: seq<Response>

    constructor (messages: seq<Request>, end: Error, outcome: Option<Error>)
      ensures fresh(requests) && requests.messages == messages && requests.end == end && requests.pos == 0
      ensures this.outcome == outcome && answers == []
    {
      requests := new Receiver(messages, end);
      this.outcome := outcome;
      answers := [];
    }

    method SendAndClose(resp: Response) returns (err: Option<Error>)
      modifies this
      ensures answers == old(answers) + [resp] && err == outcome
    {
      answers := answers + [resp];
      return outcome;
    }
  }

  /** The upstream call: refused or opened with claims, sent requests, and closed for one response. */
  class Upstream {
    const refused: Option<Error>
    const requests: Sender<Request>
    const reply: Received<Response>
    var claims: Option<Claims>
    var closes: nat

    constructor (refused: Option<Error>, outcome: nat -> Option<Error>, reply: Received<Response>)
      ensures this.refused == refused && this.reply == reply && claims == None && closes == 0
      ensures fresh(requests) && requests.outcome == outcome && requests.sent == [] && requests.attempts == 0
    {
      this.refused := refused;
      requests := new Sender(outcome);
      this.reply := reply;
      claims, closes := None, 0;
    }

    method Open(claims: Claims) returns (err: Option<Error>)
      modifies this
      ensures this.claims == Some(claims) && closes == old(closes) && err == refused
    {
      this.claims := Some(claims);
      return refused;
    }

    method CloseAndRecv() returns (r: Received<Response>)
      modifies this
      ensures closes == old(closes) + 1 && claims == old(claims) && r == reply
    {
      closes := closes + 1;
      return reply;
    }
  }

  /** What the machine has received and forwarded is what the two ends of the loop show. */
  ghost predicate ShowsLoop(s: State, requests: Receiver<Request>, upstream: Sender<Request>)
    reads requests, upstream
  {
    && requests.pos <= |requests.messages| && s.received == requests.messages[..requests.pos]
    && (s.ended ==> requests.pos == |requests.messages| && requests.end == EOF)
    && s.forwarded == upstream.sent
  }

  /** The machine state that the two streams show. */
  ghost predicate Shows(s: State, stream: ClientStream, proxy: Upstream)
    reads stream, stream.requests, proxy, proxy.requests
  {
    && ShowsLoop(s, stream.requests, proxy.requests)
    && s.answers == stream.answers && s.claims == proxy.claims && s.closes == proxy.closes
    && (s.reply.Some? ==> proxy.reply == Message(s.reply.value))
  }

  ghost predicate Forwarding(s: State, req: Request) {
    s.pc == SendOn(req) && s.received == s.forwarded + [req]
    && !s.ended && s.closes == 0 && s.reply.None? && s.answers == []
  }

  /** The forwarding loop: `nil` means that the client has ended its stream. */
  method Forward(requests: Receiver<Request>, upstream: Sender<Request>, first: Request, ghost before: seq<State>)
    returns (err: Option<Error>, ghost run: seq<State>)
    requires before != [] && AppendRun(before) && Forwarding(Last(before), first)
    requires ShowsLoop(Last(before), requests, upstream) && upstream.sent == [] && upstream.attempts == 0
    modifies requests, upstream
    ensures run != [] && AppendRun(run) && ShowsLoop(Last(run), requests, upstream)
    ensures Last(run).claims == Last(before).claims
    ensures Last(run).closes == 0 && Last(run).reply.None? && Last(run).answers == []
    ensures Last(run).pc == if err.Some? then Finished(err) else CloseAndReceive
    ensures var k := FirstFailure(upstream.outcome, |requests.messages|);
            && upstream.sent == requests.messages[..k]
            && err == if k < |requests.messages| then upstream.outcome(k)
                      else if requests.end == EOF then None else Some(requests.end)
  {
    hide AppendRun, FirstFailure, AllSent;
    var req := first;
    NoneSent(upstream.outcome);
    run := before;
    ghost var s := Last(run);
    ghost var messages, n := requests.messages, |requests.messages|;
    while true
      invariant run != [] && AppendRun(run) && Last(run) == s && Forwarding(s, req)
      invariant s.claims == Last(before).claims
      invariant 1 <= requests.pos <= n && s.received == messages[..requests.pos]
      invariant s.forwarded == upstream.sent && |upstream.sent| == upstream.attempts == requests.pos - 1
      invariant AllSent(upstream.outcome, upstream.attempts)
      decreases n - requests.pos
    {
      ghost var at := requests.pos;
      Shorter(messages, s.forwarded, req, at);
      OneMore(messages, at);
      err := upstream.Send(req);
      run := AfterSend(run, req, err);
      if err.Some? {
        SentUpTo(upstream.outcome, n, at - 1);
        return err, run;
      }
      OneSent(upstream.outcome, at - 1);
      var next := requests.Recv();
      run := AfterReceive(run, next);
      if next.Failed? {
        SentUpTo(upstream.outcome, n, at);
        return if next.error == EOF then None else Some(next.error), run;
      }
      req := next.message;
      s := Last(run);
    }
  }

  lemma Shorter(messages: seq<Request>, forwarded: seq<Request>, req: Request, n: nat)
    requires 1 <= n <= |messages| && messages[..n] == forwarded + [req]
    ensures forwarded == messages[..n - 1]
  {
    assert messages[..n][..n - 1] == messages[..n - 1];
  }

  /** Behind the loop: the upstream is closed for its response, and that is the client's answer. */
  method CloseAndAnswer(stream: ClientStream, proxy: Upstream, ghost before: seq<State>)
    returns (err: Option<Error>, ghost run: seq<State>)
    requires before != [] && AppendRun(before) && Last(before).pc == CloseAndReceive
    requires Shows(Last(before), stream, proxy) && proxy.closes == 0 && stream.answers == []
    modifies stream, proxy
    ensures run != [] && AppendRun(run) && Last(run).pc == Finished(err)
    ensures Shows(Last(run), stream, proxy)
    ensures proxy.claims == old(proxy.claims) && proxy.closes == 1
    ensures stream.answers == if proxy.reply.Message? then [proxy.reply.message] else []
    ensures err == if proxy.reply.Failed? then Some(proxy.reply.error) else stream.outcome
  {
    hide AppendRun;
    var resp := proxy.CloseAndRecv();
    run := AfterClose(before, resp);
    if resp.Failed? {
      return Some(resp.error), run;
    }
    err := stream.SendAndClose(resp.message);
    run := AfterAnswer(run, resp.message, err);
  }

  /** `Append` follows the machine: the streams it leaves behind show the last state of a run. */
  method Append(stream: ClientStream, proxy: Upstream) returns (err: Option<Error>, ghost run: seq<State>)
    requires stream.requests.pos == 0 && stream.answers == []
    requires proxy.claims == None && proxy.closes == 0
    requires proxy.requests.attempts == 0 && proxy.requests.sent == []
    modifies stream, stream.requests, proxy, proxy.requests
    ensures run != [] && AppendRun(run) && Last(run).pc == Finished(err)
    ensures Shows(Last(run), stream, proxy)
    ensures var messages, end := stream.requests.messages, stream.requests.end;
            var k := FirstFailure(proxy.requests.outcome, |messages|);
            if messages == [] then
              proxy.claims == None && proxy.requests.sent == [] && err == Some(end)
            else
              && NamesJournal(proxy.claims, messages[0])
              && (if proxy.refused.Some? then proxy.requests.sent == [] && err == proxy.refused
                  else
                    && proxy.requests.sent == messages[..k]
                    && err == if k < |messages| then proxy.requests.outcome(k)
                              else if end != EOF then Some(end)
                              else if proxy.reply.Failed? then Some(proxy.reply.error)
                              else stream.outcome)
  {
    hide AppendRun, FirstFailure;
    StartsRun();
    var first := stream.requests.Recv();
    run := AfterFirst([Init()], first);
    if first.Failed? {
      return Some(first.error), run;
    }
    assert stream.requests.messages[..1] == [first.message];
    err := proxy.Open(ClaimsFor(first.message));
    run := AfterOpen(run, first.message, err);
    if err.Some? {
      return err, run;
    }
    err, run := Forward(stream.requests, proxy.requests, first.message, run);
    if err.Some? {
      return err, run;
    }
    err, run := CloseAndAnswer(stream, proxy, run);
  }

  lemma StartsRun()
    ensures AppendRun([Init()])
  {
  }

  /** What a caller of `Append` can rely on, whatever the two streams do. */
  lemma AppendOutcome(run: seq<State>, err: Option<Error>, stream: ClientStream, proxy: Upstream)
    requires AppendRun(run) && Last(run).pc == Finished(err)
    requires Shows(Last(run), stream, proxy)
    ensures err.None? ==> stream.answers != []
    ensures stream.answers != [] ==>
              && stream.requests.end == EOF && stream.requests.messages != []
              && proxy.requests.sent == stream.requests.messages
              && NamesJournal(proxy.claims, stream.requests.messages[0])
              && proxy.closes == 1 && proxy.reply.Message? && stream.answers == [proxy.reply.message]
    ensures proxy.requests.sent <= stream.requests.messages && |run| <= 2 * |stream.requests.messages| + 5
  {
    hide Next, Inv;
    Completion(run, |run| - 1);
    Safety(run, |run| - 1);
    RunLength(run);
    assert stream.requests.messages[..|stream.requests.messages|] == stream.requests.messages;
  }
}
