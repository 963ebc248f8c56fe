/**
 The control client of lib/sdp_ctrl_client.c as a machine: what each of its steps makes of
 the client's fields and trace, given what the controller, the network, the clock and the
 signals do. Whatever they do, over any number of turns, the invariants hold.
 */
module SdpMachine {
  import opened Common
  import opened SdpCom
  import opened SdpTrace

  datatype ClientState = READY | REQUESTING(kind: Kind) | UNFULFILLED(kind: Kind)

  function KindOf(s: ClientState): Option<Kind> {
    match s case READY => None case REQUESTING(k) => Some(k) case UNFULFILLED(k) => Some(k)
  }

  datatype Config = Config(
    maxConnAttempts: nat,
    initialConnInterval: nat,
    useSpa: bool,
    maxReqAttempts: nat,
    initialReqInterval: nat,
    keepAliveInterval: nat,
    credUpdateInterval: nat,
    serviceRefreshInterval: nat,
    accessRefreshInterval: nat,
    queueLen: nat,
    remainConnected: bool)
  {
    // What finalize_config and sdp_com_init leave.
    predicate Valid() {
      && 1 <= maxConnAttempts <= INT32_MAX && 1 <= initialConnInterval <= MAX_RETRY_INTERVAL
      && 1 <= maxReqAttempts <= INT32_MAX && 1 <= initialReqInterval <= MAX_RETRY_INTERVAL
    }
  }

  // The client's fields, with the trace it has left.
  datatype View = View(
    config: Config,
    connected: bool,
    connAttempts: nat,
    controllerReady: bool,
    state: ClientState,
    lastContact: nat,
    lastCredUpdate: nat,
    lastServiceRefresh: nat,
    lastAccessRefresh: nat,
    lastReqTime: nat,
    reqAttempts: nat,
    retryInterval: nat,
    clock: nat,  // the time as last read
    trace: seq<Event>)

  // ----- the environment -----

  datatype SendOutcome = SendOk | WriteFailed | NotSent | NoMemory

  // How a message is sent and how much later the clock is read again.
  datatype Sending = Sending(outcome: SendOutcome, delay: nat)

  datatype Considering = Considering(delay: nat, sending: Sending)

  datatype Message =
    | CredentialsGood
    | KeepAliveReply
    | CredentialUpdate
    | Data(kind: Kind, refresh: bool)  // service or access data for the caller
    | UnknownMessage

  // Whether new credentials can be stored, and how the acknowledgement is sent.
  datatype Inbound = ReadError | BadMessage | Received(message: Message, delay: nat, saved: bool, ack: SendOutcome)

  // A restart reads the configuration again, unless that fails.
  datatype Signal = NoSignal | Hangup(config: Option<Config>) | Exit | OtherSignal

  // What happens in one turn of a loop. Nothing is left to read after the messages of the inbox.
  datatype Turn = Turn(
    connect: nat -> Try,
    delay: nat,
    inbox: seq<Inbound>,
    cred: Considering,
    access: Considering,
    signal: Signal,
    keepAlive: Considering)

  // ----- steps -----

  datatype Result = Result(view: View, ok: bool)

  function IntervalsOf(c: Config): Times {
    Times(c.credUpdateInterval, c.serviceRefreshInterval, c.accessRefreshInterval, c.keepAliveInterval)
  }

  function Starting(c: Config): Event { Restarted(c.initialReqInterval, IntervalsOf(c)) }

  function Start(c: Config): View {
    View(c, false, 0, false, READY, 0, 0, 0, 0, 0, 0, DEFAULT_RETRY, 0, [Starting(c)])
  }

  function Log(v: View, e: Event): View { v.(trace := v.trace + [e]) }

  // time(NULL) never goes back.
  function Tick(v: View, delay: nat): View { v.(clock := v.clock + delay) }

  function Down(v: View): View { Log(v.(connected := false), Disconnected) }

  function Ended(v: View): View { if v.connected then Down(v) else v }

  // A response to the outstanding request.
  function Answered(v: View, k: Kind): View {
    if KindOf(v.state) != Some(k) then v else
    Log(v.(lastReqTime := 0, retryInterval := v.config.initialReqInterval, reqAttempts := 0, state := READY), Answer(k))
  }

  // What writing a request does to the fields.
  function Written(v: View, k: Kind, s: Sending): View {
    match s.outcome
    case SendOk =>
      var now := v.clock + s.delay;
      v.(state := REQUESTING(k), lastReqTime := now, reqAttempts := v.reqAttempts + 1, clock := now)
    case WriteFailed => v.(connected := false)
    case _ => v
  }

  // A request when none is outstanding.
  function First(v: View, k: Kind, s: Sending): View {
    var w := Written(v, k, s);
    match s.outcome
    case SendOk => Log(w, Sent(k, w.clock))
    case WriteFailed => Log(w, Disconnected)
    case _ => w
  }

  function Unfulfilled(v: View, k: Kind): View {
    v.(state := UNFULFILLED(k), retryInterval := Min(MAX_RETRY_INTERVAL, 2 * v.retryInterval))
  }

  // One more attempt at the outstanding request, with the interval doubled first.
  function Again(v: View, k: Kind, s: Sending): View {
    var w := Written(Unfulfilled(v, k), k, s);
    var x := Log(w, Retried(k, v.clock, w.clock, s.outcome == SendOk));
    if s.outcome == WriteFailed then Log(x, Disconnected) else x
  }

  // When the first request of a kind is due.
  function DueTime(v: View, k: Kind): nat {
    match k
    case Cred => v.lastCredUpdate + v.config.credUpdateInterval
    case Service => v.lastServiceRefresh + v.config.serviceRefreshInterval
    case Access => v.lastAccessRefresh + v.config.accessRefreshInterval
    case KeepAlive => v.lastContact + v.config.keepAliveInterval
  }

  datatype Action = Idle | Asking | AskingAgain | GivingUp

  // What is to be done about requests of a kind.
  function Decide(v: View, k: Kind): Action {
    if !v.connected then Idle
    else if v.state == READY then
      if v.clock >= DueTime(v, k) then Asking else Idle
    else if KindOf(v.state) == Some(k) then
      if v.clock < v.lastReqTime + v.retryInterval then Idle
      else if v.reqAttempts >= v.config.maxReqAttempts then GivingUp
      else AskingAgain
    else Idle
  }

  // The clock is read when there may be something to do.
  function Looked(v: View, k: Kind, c: Considering): View {
    if v.connected && (v.state == READY || KindOf(v.state) == Some(k)) then Tick(v, c.delay) else v
  }

  function Considered(v: View, k: Kind, c: Considering): Result {
    var u := Looked(v, k, c);
    match Decide(u, k)
    case Idle => Result(u, true)
    case Asking => Result(First(u, k, c.sending), c.sending.outcome != NoMemory)
    case AskingAgain => Result(Again(u, k, c.sending), c.sending.outcome != NoMemory)
    case GivingUp => Result(Down(u.(reqAttempts := 0)), true)
  }

  // The controller said on this connection that it is ready.
  function Readied(v: View): View { Log(v.(controllerReady := true), Good) }

  // The acknowledgement of new credentials or data; without a connection it is not sent.
  function Acknowledged(v: View, ack: SendOutcome): Result {
    if !v.connected then Result(v, false)
    else if ack == WriteFailed then Result(Down(v), false)
    else Result(v, ack == SendOk)
  }

  // Service or access data came as asked for.
  function Refreshed(v: View, k: Kind, delay: nat): View {
    var u := Tick(v, delay);
    if k == Service then Log(u.(lastServiceRefresh := u.clock), Fresh(Service, u.clock))
    else if k == Access then Log(u.(lastAccessRefresh := u.clock), Fresh(Access, u.clock))
    else u
  }

  // The controller answered a keep-alive.
  function Contacted(v: View): View { Log(v.(lastContact := v.clock), Fresh(KeepAlive, v.clock)) }

  // New credentials are stored.
  function Updated(v: View): View {
    Log(v.(lastContact := v.clock, lastCredUpdate := v.clock), Fresh(Cred, v.clock))
  }

  function Acted(v: View, m: Message, delay: nat, saved: bool, ack: SendOutcome): Result {
    match m
    case CredentialsGood => Result(Readied(v), true)
    case KeepAliveReply =>
      var u := Tick(v, delay);
      Result(Answered(Contacted(u), KeepAlive), true)
    case CredentialUpdate =>
      if !saved then Result(Readied(v), false) else
      var u := Tick(Readied(v), delay);
      Acknowledged(Answered(Updated(u), Cred), ack)
    case Data(k, refresh) => Result(if refresh then Refreshed(v, k, delay) else v, true)
    case UnknownMessage => Result(v, true)
  }

  // The caller's acknowledgement of service or access data answers a request of that kind.
  function DataAcknowledged(v: View, k: Kind, ack: SendOutcome): Result {
    if k != Service && k != Access then Result(v, false) else Acknowledged(Answered(v, k), ack)
  }

  datatype Checked = Checked(view: View, ok: bool, data: Option<Kind>)

  // Up to n messages, stopping early at data for the caller.
  function InboxChecked(v: View, inbox: seq<Inbound>, n: nat): Checked
    decreases n
  {
    if n == 0 || inbox == [] then Checked(v, true, None) else
    match inbox[0]
    case ReadError => Checked(v, false, None)
    case BadMessage => Checked(v, false, None)
    case Received(m, delay, saved, ack) =>
      var r := Acted(v, m, delay, saved, ack);
      if !r.ok then Checked(r.view, false, None)
      else if m.Data? then Checked(r.view, true, Some(m.kind))
      else InboxChecked(r.view, inbox[1..], n - 1)
  }

  // A new connection; the run loop takes the flag down, the listen loop does not.
  function ConnectedIf(v: View, t: Turn, keepFlag: bool): Result
    requires v.config.Valid() && v.connAttempts < TWO32
  {
    if v.connected then Result(v, true) else
    var c := Connecting(v.config.maxConnAttempts, v.config.useSpa, t.connect, v.connAttempts, 0);
    var u := v.(connAttempts := c.attempts);
    if c.outcome != ConnectOk then Result(u, false) else
    var now := v.clock + t.delay;
    var flag := keepFlag && v.controllerReady;
    var w := u.(connected := true, controllerReady := flag, lastContact := now, clock := now);
    Result(Log(w, Connected(flag, now)), true)
  }

  // The fields as a new client has them.
  function StartedOver(v: View, c: Config): View {
    Start(c).(clock := v.clock, trace := v.trace + [Starting(c)])
  }

  function Signalled(v: View, s: Signal): Result {
    match s
    case NoSignal => Result(v, true)
    case OtherSignal => Result(v, true)
    case Exit => Result(v, false)
    case Hangup(c) =>
      if c.None? || !c.value.Valid() then Result(Ended(v), false) else Result(StartedOver(Ended(v), c.value), true)
  }

  // ----- turns and runs -----

  function LoopTurn(v: View, t: Turn): Result
    requires v.config.Valid() && v.connAttempts < TWO32
  {
    var a := ConnectedIf(v, t, false);
    if !a.ok then a else
    var b := InboxChecked(a.view, t.inbox, a.view.config.queueLen);
    if !b.ok || !b.view.controllerReady then Result(b.view, b.ok) else
    var c := Considered(b.view, Cred, t.cred);
    if !c.ok then c else
    if !c.view.config.remainConnected && c.view.lastCredUpdate > 0 then Result(c.view, false) else
    var d := Signalled(c.view, t.signal);
    if !d.ok then d else Considered(d.view, KeepAlive, t.keepAlive)
  }

  // The three requests a turn of the listen loop considers.
  function Requested(v: View, t: Turn): Result {
    var a := Considered(v, Cred, t.cred);
    if !a.ok then a else
    var b := Considered(a.view, Access, t.access);
    if !b.ok then b else Considered(b.view, KeepAlive, t.keepAlive)
  }

  // The listen loop up to its requests: they are considered only if there is no error and no data.
  function Listened(v: View, t: Turn): Checked
    requires v.config.Valid() && v.connAttempts < TWO32
  {
    var a := ConnectedIf(v, t, true);
    if !a.ok then Checked(a.view, false, None) else InboxChecked(a.view, t.inbox, a.view.config.queueLen)
  }

  predicate Considers(c: Checked) { c.ok && c.data.None? && c.view.controllerReady }

  function ListenTurn(v: View, t: Turn): Checked
    requires v.config.Valid() && v.connAttempts < TWO32
  {
    var b := Listened(v, t);
    if !Considers(b) then b else
    var r := Requested(b.view, t);
    Checked(r.view, r.ok, None)
  }

  // ----- invariants -----

  ghost predicate Inv(v: View) {
    var s := Sum(v.trace);
    && v.config.Valid() && v.connAttempts < TWO32
    && s.outstanding == KindOf(v.state)
    && (v.state == READY ==> v.reqAttempts == 0)
    && v.reqAttempts <= v.config.maxReqAttempts
    && s.initial == v.config.initialReqInterval && s.intervals == IntervalsOf(v.config)
    && s.times == Times(v.lastCredUpdate, v.lastServiceRefresh, v.lastAccessRefresh, v.lastContact)
    && v.retryInterval == Interval(s)
    && v.lastReqTime == s.lastSent <= v.clock
    && s.online == v.connected
    && (v.connected && v.controllerReady ==> s.ready || s.stale)
    && Disciplined(v.trace)
  }

  // The flag means what it says: the controller is ready on this connection.
  ghost predicate Truthful(v: View) { v.connected && v.controllerReady ==> Sum(v.trace).ready }

  ghost predicate Fine(v: View) { Inv(v) && Truthful(v) && Lawful(v.trace) }

  // What every step does: it keeps the invariants and only adds to the trace.
  ghost predicate Step(v: View, w: View) {
    (Inv(v) ==> Inv(w)) && (Fine(v) ==> Fine(w)) && v.trace <= w.trace
  }

  lemma StepTrans(v: View, w: View, x: View)
    requires Step(v, w) && Step(w, x)
    ensures Step(v, x)
  {
    hide Inv, Fine;
  }

  lemma StartFine(c: Config)
    requires c.Valid()
    ensures Fine(Start(c)) && Start(c).retryInterval == 10
  {
    hide Interval;
    var e := Starting(c);
    Extend([], e);
    assert [] + [e] == [e];
    IntervalAfter(Sum([]), e);
  }

  // Logging an event that is proper at this point.
  lemma Logged(v: View, e: Event)
    ensures Sum(v.trace + [e]) == After(Sum(v.trace), e)
    ensures Disciplined(v.trace + [e]) <==> Disciplined(v.trace) && Proper(Sum(v.trace), e)
    ensures Lawful(v.trace + [e]) <==> Lawful(v.trace) && Allowed(Sum(v.trace), e)
  {
    hide Sum, Disciplined, Lawful;
    Extend(v.trace, e);
  }

  lemma TickStep(v: View, delay: nat)
    ensures Step(v, Tick(v, delay))
  {
    hide Sum, Disciplined, Lawful, Interval;
  }

  lemma DownStep(v: View)
    ensures Step(v, Down(v))
  {
    hide Sum, Disciplined, Lawful, Interval;
    Logged(v, Disconnected);
    IntervalAfter(Sum(v.trace), Disconnected);
  }

  lemma AnsweredStep(v: View, k: Kind)
    ensures Step(v, Answered(v, k))
  {
    hide Sum, Disciplined, Lawful, Interval;
    Logged(v, Answer(k));
    IntervalAfter(Sum(v.trace), Answer(k));
  }

  lemma ReadiedStep(v: View)
    ensures Step(v, Readied(v))
  {
    hide Sum, Disciplined, Lawful, Interval;
    Logged(v, Good);
    IntervalAfter(Sum(v.trace), Good);
  }

  // A first request is lawful exactly when it is not sent or the controller is ready.
  lemma FirstStep(v: View, k: Kind, s: Sending)
    requires Decide(v, k) == Asking && v.controllerReady
    ensures Step(v, First(v, k, s))
    ensures Inv(v) ==>
              (Lawful(First(v, k, s).trace) <==> Lawful(v.trace) && (s.outcome == SendOk ==> Sum(v.trace).ready))
  {
    hide Sum, Disciplined, Lawful, Interval;
    if s.outcome == SendOk {
      var e := Sent(k, v.clock + s.delay);
      Logged(v, e);
      IntervalAfter(Sum(v.trace), e);
    } else if s.outcome == WriteFailed {
      Logged(v, Disconnected);
      DownStep(v);
    }
  }

  lemma AgainStep(v: View, k: Kind, s: Sending)
    requires Decide(v, k) == AskingAgain && v.controllerReady
    ensures Step(v, Again(v, k, s))
    ensures Inv(v) ==> (Lawful(Again(v, k, s).trace) <==> Lawful(v.trace) && Sum(v.trace).ready)
  {
    hide Sum, Disciplined, Lawful, Interval, Min;
    var u := Unfulfilled(v, k);
    var sent := s.outcome == SendOk;
    var e := Retried(k, v.clock, v.clock + if sent then s.delay else 0, sent);
    Logged(v, e);
    IntervalAfter(Sum(v.trace), e);
    if s.outcome == WriteFailed {
      Logged(Log(u, e), Disconnected);
      DownStep(Log(u, e));
      assert Again(v, k, s) == Down(Log(u, e));
    }
  }

  // A request is logged: the first one that goes out, or any retry.
  predicate Asks(v: View, k: Kind, c: Considering) {
    var a := Decide(Looked(v, k, c), k);
    (a == Asking && c.sending.outcome == SendOk) || a == AskingAgain
  }

  lemma ConsideredStep(v: View, k: Kind, c: Considering)
    requires v.connected ==> v.controllerReady
    ensures Step(v, Considered(v, k, c).view)
    ensures Inv(v) ==>
              (Lawful(Considered(v, k, c).view.trace) <==> Lawful(v.trace) && (Asks(v, k, c) ==> Sum(v.trace).ready))
    ensures var w := Considered(v, k, c).view; w.config == v.config && w.controllerReady == v.controllerReady
  {
    hide Sum, Disciplined, Lawful, Interval, Inv, Fine, First, Again;
    var u := Looked(v, k, c);
    TickStep(v, c.delay);
    SameStep(v);
    match Decide(u, k)
    case Idle =>
    case Asking =>
      FirstStep(u, k, c.sending);
      StepTrans(v, u, First(u, k, c.sending));
      Unchanged(u, k, c.sending);
    case AskingAgain =>
      AgainStep(u, k, c.sending);
      StepTrans(v, u, Again(u, k, c.sending));
      Unchanged(u, k, c.sending);
    case GivingUp =>
      Logged(u.(reqAttempts := 0), Disconnected);
      GivingUpStep(u);
      StepTrans(v, u, Down(u.(reqAttempts := 0)));
  }

  // ----- when a request is made -----

  // What writing a first request leaves in the trace.
  function FirstEvents(k: Kind, s: Sending, now: nat): seq<Event> {
    match s.outcome
    case SendOk => [Sent(k, now + s.delay)]
    case WriteFailed => [Disconnected]
    case _ => []
  }

  // With nothing outstanding, a request of each kind is made exactly when its own interval has passed
  // since its own last time.
  lemma FirstExactly(v: View, k: Kind, c: Considering)
    requires v.connected && v.state == READY
    ensures var w, now := Considered(v, k, c).view, v.clock + c.delay;
            var asked := v.trace + FirstEvents(k, c.sending, now);
            && (k == Cred ==>
                  w.trace == if now >= v.lastCredUpdate + v.config.credUpdateInterval then asked else v.trace)
            && (k == Service ==>
                  w.trace == if now >= v.lastServiceRefresh + v.config.serviceRefreshInterval then asked else v.trace)
            && (k == Access ==>
                  w.trace == if now >= v.lastAccessRefresh + v.config.accessRefreshInterval then asked else v.trace)
            && (k == KeepAlive ==>
                  w.trace == if now >= v.lastContact + v.config.keepAliveInterval then asked else v.trace)
            && (w.state == REQUESTING(k) <==> |w.trace| > |v.trace| && c.sending.outcome == SendOk)
            && (w.state == REQUESTING(k) || w.state == READY)
  {
    assert v.trace + [] == v.trace;
  }

  // With a request of the kind outstanding, it is made again exactly when the retry interval has
  // passed since it was last sent, until the attempts reach the maximum, when the connection is given up.
  lemma AgainExactly(v: View, k: Kind, c: Considering)
    requires v.connected && KindOf(v.state) == Some(k)
    ensures var w, now, s := Considered(v, k, c).view, v.clock + c.delay, c.sending;
            var again := Retried(k, now, if s.outcome == SendOk then now + s.delay else now, s.outcome == SendOk);
            if now < v.lastReqTime + v.retryInterval then w == v.(clock := now)
            else if v.reqAttempts >= v.config.maxReqAttempts then
              w.trace == v.trace + [Disconnected] && !w.connected && w.reqAttempts == 0 && w.state == v.state
            else
              && w.trace == v.trace + [again] + (if s.outcome == WriteFailed then [Disconnected] else [])
              && w.retryInterval == (if 2 * v.retryInterval > 7200 then 7200 else 2 * v.retryInterval)
              && w.reqAttempts == v.reqAttempts + (if s.outcome == SendOk then 1 else 0)
  {
    hide Sum;
    assert v.trace + [] == v.trace;
  }

  // Without a connection, or with a request of another kind outstanding, nothing happens.
  lemma IdleExactly(v: View, k: Kind, c: Considering)
    requires !v.connected || (v.state != READY && KindOf(v.state) != Some(k))
    ensures Considered(v, k, c) == Result(v, true)
  {
  }

  // ----- every step keeps the invariants -----

  lemma SameStep(v: View)
    ensures Step(v, v)
  {
  }

  lemma GivingUpStep(v: View)
    ensures Step(v, Down(v.(reqAttempts := 0)))
  {
    hide Sum, Disciplined, Lawful, Interval;
    Logged(v, Disconnected);
    IntervalAfter(Sum(v.trace), Disconnected);
  }

  lemma Unchanged(v: View, k: Kind, s: Sending)
    ensures First(v, k, s).config == v.config && First(v, k, s).controllerReady == v.controllerReady
    ensures Again(v, k, s).config == v.config && Again(v, k, s).controllerReady == v.controllerReady
  {
  }

  lemma AcknowledgedStep(v: View, ack: SendOutcome)
    ensures Step(v, Acknowledged(v, ack).view)
    ensures Acknowledged(v, ack).ok ==> Acknowledged(v, ack).view == v && v.connected
  {
    hide Inv, Fine, Down;
    SameStep(v);
    DownStep(v);
  }

  // The time of something new goes with its event.
  lemma FreshStep(v: View, k: Kind)
    ensures k == KeepAlive ==> Step(v, Contacted(v)) && SameButTrace(v, Contacted(v))
    ensures k == Cred ==> Step(v, Updated(v)) && SameButTrace(v, Updated(v))
  {
    hide Sum, Disciplined, Lawful, Interval;
    Logged(v, Fresh(k, v.clock));
    IntervalAfter(Sum(v.trace), Fresh(k, v.clock));
  }

  lemma RefreshedStep(v: View, k: Kind, delay: nat)
    ensures Step(v, Refreshed(v, k, delay)) && SameButTrace(v, Refreshed(v, k, delay))
  {
    hide Sum, Disciplined, Lawful, Interval;
    Logged(v, Fresh(k, v.clock + delay));
    IntervalAfter(Sum(v.trace), Fresh(k, v.clock + delay));
  }

  // What is as it was after an event that is no request and no connection.
  predicate SameButTrace(v: View, w: View) {
    && w.config == v.config && w.controllerReady == v.controllerReady && w.connected == v.connected
    && Sum(w.trace).ready == Sum(v.trace).ready && (Lawful(w.trace) <==> Lawful(v.trace))
  }

  predicate SaysReady(m: Message) { m == CredentialsGood || m == CredentialUpdate }

  // One message: the flag goes up exactly with a message that says so, and only then does the
  // controller become ready.
  lemma ActedStep(v: View, m: Message, delay: nat, saved: bool, ack: SendOutcome)
    ensures var r := Acted(v, m, delay, saved, ack);
            && Step(v, r.view) && r.view.config == v.config
            && (r.ok && v.connected ==> r.view.connected)
            && (r.view.controllerReady <==> v.controllerReady || SaysReady(m))
            && (r.ok && v.connected ==> (Sum(r.view.trace).ready <==> Sum(v.trace).ready || SaysReady(m)))
            && (Lawful(r.view.trace) <==> Lawful(v.trace))
  {
    hide Sum, Disciplined, Lawful, Interval, Inv, Fine, Step;
    match m
    case CredentialsGood => GoodActed(v);
    case KeepAliveReply => KeepAliveActed(v, delay);
    case CredentialUpdate => UpdateActed(v, delay, saved, ack);
    case Data(k, refresh) =>
      SameStep(v);
      RefreshedStep(v, k, delay);
    case UnknownMessage => SameStep(v);
  }

  lemma GoodActed(v: View)
    ensures Step(v, Readied(v)) && Sum(Readied(v).trace).ready && (Lawful(Readied(v).trace) <==> Lawful(v.trace))
  {
    hide Sum, Disciplined, Lawful, Interval;
    Logged(v, Good);
    ReadiedStep(v);
  }

  lemma KeepAliveActed(v: View, delay: nat)
    ensures var w := Answered(Contacted(Tick(v, delay)), KeepAlive);
            Step(v, w) && SameButTrace(v, w)
  {
    hide Sum, Disciplined, Lawful, Interval, Inv, Fine;
    var u := Tick(v, delay);
    var x := Contacted(u);
    TickStep(v, delay);
    FreshStep(u, KeepAlive);
    StepTrans(v, u, x);
    AnswerKeeps(x, KeepAlive);
    StepTrans(v, x, Answered(x, KeepAlive));
  }

  lemma AnswerKeeps(v: View, k: Kind)
    ensures Step(v, Answered(v, k)) && SameButTrace(v, Answered(v, k))
  {
    hide Sum, Disciplined, Lawful, Interval, Step;
    AnsweredStep(v, k);
    Logged(v, Answer(k));
  }

  lemma UpdateActed(v: View, delay: nat, saved: bool, ack: SendOutcome)
    ensures var r := Acted(v, CredentialUpdate, delay, saved, ack);
            && Step(v, r.view) && r.view.config == v.config && r.view.controllerReady
            && (r.ok && v.connected ==> r.view.connected && Sum(r.view.trace).ready)
            && (Lawful(r.view.trace) <==> Lawful(v.trace))
  {
    hide Sum, Disciplined, Lawful, Interval, Inv, Fine, Step;
    GoodActed(v);
    if saved {
      var a := Readied(v);
      var u := Tick(a, delay);
      var x := Updated(u);
      TickStep(a, delay);
      StepTrans(v, a, u);
      FreshStep(u, Cred);
      StepTrans(v, u, x);
      AnswerKeeps(x, Cred);
      var y := Answered(x, Cred);
      StepTrans(v, x, y);
      AcknowledgedStep(y, ack);
      StepTrans(v, y, Acknowledged(y, ack).view);
      Logged(y, Disconnected);
    }
  }

  // The messages that are acted on.
  function Heard(inbox: seq<Inbound>, n: nat): seq<Message>
    decreases n
  {
    if n == 0 || inbox == [] || !inbox[0].Received? then [] else
    var m := inbox[0].message;
    [m] + if m.Data? then [] else Heard(inbox[1..], n - 1)
  }

  predicate HeardReady(messages: seq<Message>) { exists i :: 0 <= i < |messages| && SaysReady(messages[i]) }

  lemma HeardFirst(m: Message, rest: seq<Message>)
    ensures HeardReady([m] + rest) <==> SaysReady(m) || HeardReady(rest)
  {
    var all := [m] + rest;
    assert all[0] == m && forall i | 0 <= i < |rest| :: all[i + 1] == rest[i];
    if HeardReady(rest) {
      var i :| 0 <= i < |rest| && SaysReady(rest[i]);
      assert SaysReady(all[i + 1]);
    }
    if HeardReady(all) && !SaysReady(m) {
      var i :| 0 <= i < |all| && SaysReady(all[i]);
      assert SaysReady(rest[i - 1]);
    }
  }

  lemma {:induction false} InboxStep(v: View, inbox: seq<Inbound>, n: nat)
    ensures var r := InboxChecked(v, inbox, n);
            && Step(v, r.view) && r.view.config == v.config
            && (Lawful(r.view.trace) <==> Lawful(v.trace))
            && (r.ok && v.connected ==>
                  && r.view.connected
                  && (r.view.controllerReady <==> v.controllerReady || HeardReady(Heard(inbox, n)))
                  && (Sum(r.view.trace).ready <==> Sum(v.trace).ready || HeardReady(Heard(inbox, n))))
    decreases n
  {
    hide Sum, Disciplined, Lawful, Interval, Inv, Fine, Step, Acted, SaysReady, HeardReady;
    SameStep(v);
    NothingHeard();
    if n > 0 && inbox != [] && inbox[0].Received? {
      var i := inbox[0];
      var r := Acted(v, i.message, i.delay, i.saved, i.ack);
      ActedStep(v, i.message, i.delay, i.saved, i.ack);
      HeardFirst(i.message, if i.message.Data? then [] else Heard(inbox[1..], n - 1));
      if r.ok && !i.message.Data? {
        InboxStep(r.view, inbox[1..], n - 1);
        StepTrans(v, r.view, InboxChecked(r.view, inbox[1..], n - 1).view);
      }
    }
  }

  lemma NothingHeard()
    ensures !HeardReady([])
  {
  }

  // What a message means to an observer: a response answers a request of its own kind only.
  function EventsOf(s: Summary, m: Message, at: nat): seq<Event> {
    match m
    case CredentialsGood => [Good]
    case KeepAliveReply => [Fresh(KeepAlive, at)] + if s.outstanding == Some(KeepAlive) then [Answer(KeepAlive)] else []
    case CredentialUpdate => [Good, Fresh(Cred, at)] + if s.outstanding == Some(Cred) then [Answer(Cred)] else []
    case Data(k, refresh) => if refresh && (k == Service || k == Access) then [Fresh(k, at)] else []
    case _ => []
  }

  // The clock is read for messages that bring something new.
  function ClockAfter(m: Message, clock: nat, delay: nat): nat {
    if m == KeepAliveReply || m == CredentialUpdate || (m.Data? && m.refresh) then clock + delay else clock
  }

  function TraceAfter(t: seq<Event>, inbox: seq<Inbound>, n: nat, clock: nat): seq<Event>
    decreases n
  {
    if n == 0 || inbox == [] || !inbox[0].Received? then t else
    var m := inbox[0].message;
    var at := ClockAfter(m, clock, inbox[0].delay);
    var u := t + EventsOf(Sum(t), m, at);
    if m.Data? then u else TraceAfter(u, inbox[1..], n - 1, at)
  }

  // The trace grows by what the messages mean, and data ends the reading.
  lemma {:induction false} InboxMeaning(v: View, inbox: seq<Inbound>, n: nat)
    requires Inv(v)
    ensures var r, heard := InboxChecked(v, inbox, n), Heard(inbox, n);
            && |heard| <= n
            && (r.ok ==> r.view.trace == TraceAfter(v.trace, inbox, n, v.clock))
            && (r.data.Some? ==>
                  && r.ok && heard != []
                  && heard[|heard| - 1].Data? && heard[|heard| - 1].kind == r.data.value)
    decreases n
  {
    hide Sum, Disciplined, Lawful, Interval, Inv, Acted, EventsOf, SaysReady, ClockAfter;
    if n > 0 && inbox != [] && inbox[0].Received? {
      var i := inbox[0];
      var r := Acted(v, i.message, i.delay, i.saved, i.ack);
      ActedStep(v, i.message, i.delay, i.saved, i.ack);
      ActedMeaning(v, i.message, i.delay, i.saved, i.ack);
      var rest := if i.message.Data? then [] else Heard(inbox[1..], n - 1);
      assert Heard(inbox, n)[1..] == rest;
      HeardBound(inbox[1..], n - 1);
      if r.ok && !i.message.Data? {
        InboxMeaning(r.view, inbox[1..], n - 1);
      }
    }
  }

  lemma {:induction false} HeardBound(inbox: seq<Inbound>, n: nat)
    ensures |Heard(inbox, n)| <= n
    decreases n
  {
    if n > 0 && inbox != [] {
      HeardBound(inbox[1..], n - 1);
    }
  }

  lemma ActedMeaning(v: View, m: Message, delay: nat, saved: bool, ack: SendOutcome)
    requires Inv(v)
    ensures var r := Acted(v, m, delay, saved, ack);
            var at := ClockAfter(m, v.clock, delay);
            r.ok ==> r.view.clock == at && r.view.trace == v.trace + EventsOf(Sum(v.trace), m, at)
  {
    hide Sum, Disciplined, Interval, Answered;
    var at := v.clock + delay;
    AnswerMeaning(Contacted(Tick(v, delay)), KeepAlive);
    AnswerMeaning(Updated(Tick(Readied(v), delay)), Cred);
    var a: seq<Event>, b: seq<Event> := if KindOf(v.state) == Some(KeepAlive) then [Answer(KeepAlive)] else [],
                                        if KindOf(v.state) == Some(Cred) then [Answer(Cred)] else [];
    assert v.trace + [Fresh(KeepAlive, at)] + a == v.trace + ([Fresh(KeepAlive, at)] + a);
    assert v.trace + [Good] + [Fresh(Cred, at)] + b == v.trace + ([Good, Fresh(Cred, at)] + b);
    assert v.trace + [] == v.trace;
  }

  lemma AnswerMeaning(v: View, k: Kind)
    ensures Answered(v, k).trace == v.trace + if KindOf(v.state) == Some(k) then [Answer(k)] else []
    ensures Answered(v, k).clock == v.clock
  {
    assert v.trace + [] == v.trace;
  }

  lemma {:induction false} ConnectingBound(max: nat, useSpa: bool, world: nat -> Try, attempts: nat, i: nat)
    requires 1 <= max <= INT32_MAX && attempts < TWO32
    ensures Connecting(max, useSpa, world, attempts, i).attempts < TWO32
    decreases AttemptsLeft(max, attempts)
  {
    var a := Counted(attempts, 1);
    if Attempted(useSpa, world(i)) == ConnectFailed && a < max {
      ConnectingBound(max, useSpa, world, a, i + 1);
    }
  }

  // A connection that begins with the flag down keeps it truthful.
  lemma ConnectedStep(v: View, t: Turn, keepFlag: bool)
    requires Inv(v)
    ensures var r := ConnectedIf(v, t, keepFlag);
            && Inv(r.view) && v.trace <= r.view.trace && r.view.config == v.config
            && (Lawful(r.view.trace) <==> Lawful(v.trace))
            && (r.ok ==> r.view.connected && Sum(r.view.trace).ready == (v.connected && Sum(v.trace).ready))
            && (Fine(v) && (!keepFlag || v.connected || !v.controllerReady || !r.ok) ==> Fine(r.view))
  {
    hide Sum, Disciplined, Lawful, Interval, Connecting;
    var flag := keepFlag && v.controllerReady;
    ConnectingBound(v.config.maxConnAttempts, v.config.useSpa, t.connect, v.connAttempts, 0);
    Logged(v, Connected(flag, v.clock + t.delay));
    IntervalAfter(Sum(v.trace), Connected(flag, v.clock + t.delay));
  }

  lemma SignalledStep(v: View, s: Signal)
    ensures Step(v, Signalled(v, s).view)
    ensures Signalled(v, s).ok && Signalled(v, s).view.connected ==> Signalled(v, s).view == v
  {
    hide Sum, Disciplined, Lawful, Interval, Inv, Fine;
    SameStep(v);
    DownStep(v);
    if s.Hangup? && s.config.Some? && s.config.value.Valid() {
      RestartStep(Ended(v), s.config.value);
      StepTrans(v, Ended(v), Signalled(v, s).view);
    }
  }

  lemma RestartStep(v: View, c: Config)
    requires c.Valid()
    ensures Step(v, StartedOver(v, c))
  {
    hide Sum, Disciplined, Lawful, Interval;
    var e := Starting(c);
    Logged(v, e);
    IntervalAfter(Sum(v.trace), e);
  }

  // ----- the run loop -----

  // Whatever happens in a turn, the run loop keeps the law.
  lemma LoopTurnFine(v: View, t: Turn)
    requires Fine(v)
    ensures Fine(LoopTurn(v, t).view) && v.trace <= LoopTurn(v, t).view.trace
  {
    hide Sum, Disciplined, Lawful, Interval, Inv, Truthful, InboxChecked, Considered, Signalled, ConnectedIf;
    FineIs(v);
    ConnectedStep(v, t, false);
    var a := ConnectedIf(v, t, false);
    if a.ok {
      InboxStep(a.view, t.inbox, a.view.config.queueLen);
      var b := InboxChecked(a.view, t.inbox, a.view.config.queueLen);
      if b.ok && b.view.controllerReady {
        ConsideredStep(b.view, Cred, t.cred);
        var c := Considered(b.view, Cred, t.cred);
        SignalledStep(c.view, t.signal);
        var d := Signalled(c.view, t.signal);
        if d.ok {
          ConsideredStep(d.view, KeepAlive, t.keepAlive);
        }
      }
    }
  }

  lemma FineIs(v: View)
    ensures Fine(v) ==> Inv(v) && v.config.Valid() && v.connAttempts < TWO32
  {
  }

  // Turn after turn, until an error, an exit signal or the end of a one-time update.
  ghost function LoopRun(v: View, turns: seq<Turn>): View
    requires Fine(v)
    decreases |turns|
  {
    FineIs(v);
    if turns == [] then Ended(v) else
    var r := LoopTurn(v, turns[0]);
    LoopTurnFine(v, turns[0]);
    if r.ok then LoopRun(r.view, turns[1..]) else Ended(r.view)
  }

  // Every run of the loop, against any environment, leaves a lawful trace.
  lemma {:induction false} LoopRunFine(v: View, turns: seq<Turn>)
    requires Fine(v)
    ensures Fine(LoopRun(v, turns)) && v.trace <= LoopRun(v, turns).trace && !LoopRun(v, turns).connected
    decreases |turns|
  {
    hide Inv, Truthful, Lawful, LoopTurn, Fine;
    FineIs(v);
    DownStep(v);
    if turns != [] {
      LoopTurnFine(v, turns[0]);
      var r := LoopTurn(v, turns[0]);
      DownStep(r.view);
      if r.ok {
        LoopRunFine(r.view, turns[1..]);
      }
    }
  }

  // A turn on a connection that is ready, with nothing outstanding and no messages: credentials are
  // asked for if they are due, otherwise a keep-alive is sent if that is due, and otherwise nothing;
  // the loop goes on unless the update was the only one wanted.
  lemma QuietLoopTurn(v: View, t: Turn)
    requires Inv(v) && v.connected && v.controllerReady && v.state == READY && t.inbox == [] && t.signal == NoSignal
    requires t.cred.sending.outcome == SendOk && t.keepAlive.sending.outcome == SendOk
    ensures var r, now := LoopTurn(v, t), v.clock + t.cred.delay;
            var later := now + t.keepAlive.delay;
            if now >= v.lastCredUpdate + v.config.credUpdateInterval then
              r.view.trace == v.trace + [Sent(Cred, now + t.cred.sending.delay)]
            else if !v.config.remainConnected && v.lastCredUpdate > 0 then r.view.trace == v.trace && !r.ok
            else
              && r.ok
              && r.view.trace == if later >= v.lastContact + v.config.keepAliveInterval
                                 then v.trace + [Sent(KeepAlive, later + t.keepAlive.sending.delay)] else v.trace
  {
    hide Sum, Disciplined, Interval;
    FirstExactly(v, Cred, t.cred);
    var c := Considered(v, Cred, t.cred).view;
    if c.state == READY {
      FirstExactly(c, KeepAlive, t.keepAlive);
    } else {
      IdleExactly(c, KeepAlive, t.keepAlive);
    }
  }

  // A signal to exit ends the loop in such a turn, and a restart disconnects and starts over.
  lemma SignalledLoopTurn(v: View, t: Turn)
    requires Inv(v) && v.connected && v.controllerReady && t.inbox == [] && t.cred.sending.outcome != NoMemory
    requires v.config.remainConnected || v.lastCredUpdate == 0
    ensures t.signal == Exit ==> !LoopTurn(v, t).ok
    ensures t.signal.Hangup? ==>
              (LoopTurn(v, t).ok <==> t.signal.config.Some? && t.signal.config.value.Valid())
              && (LoopTurn(v, t).ok ==>
                    var w := LoopTurn(v, t).view;
                    w == Start(t.signal.config.value).(clock := w.clock, trace := w.trace))
  {
    hide Sum, Disciplined, Interval, First, Again;
    Unchanged(Looked(v, Cred, t.cred), Cred, t.cred.sending);
    UpdateKept(Looked(v, Cred, t.cred), t.cred.sending);
  }

  lemma UpdateKept(v: View, s: Sending)
    ensures First(v, Cred, s).lastCredUpdate == v.lastCredUpdate && Again(v, Cred, s).lastCredUpdate == v.lastCredUpdate
  {
  }

  // ----- the listen loop -----

  lemma RequestedStep(v: View, t: Turn)
    requires v.controllerReady
    ensures Step(v, Requested(v, t).view)
  {
    hide Inv, Fine, Step, Considered;
    ConsideredStep(v, Cred, t.cred);
    var a := Considered(v, Cred, t.cred);
    if a.ok {
      ConsideredStep(a.view, Access, t.access);
      var b := Considered(a.view, Access, t.access);
      StepTrans(v, a.view, b.view);
      if b.ok {
        ConsideredStep(b.view, KeepAlive, t.keepAlive);
        StepTrans(v, b.view, Considered(b.view, KeepAlive, t.keepAlive).view);
      }
    }
  }

  lemma ListenTurnInv(v: View, t: Turn)
    requires Inv(v)
    ensures Inv(ListenTurn(v, t).view) && v.trace <= ListenTurn(v, t).view.trace
  {
    hide Sum, Disciplined, Lawful, Interval, Fine, InboxChecked, Requested, ConnectedIf;
    ConnectedStep(v, t, true);
    var a := ConnectedIf(v, t, true);
    if a.ok {
      InboxStep(a.view, t.inbox, a.view.config.queueLen);
      var b := Listened(v, t);
      if Considers(b) {
        RequestedStep(b.view, t);
      }
    }
  }

  // Some request is logged in the turn.
  predicate AsksAny(v: View, t: Turn) {
    var a := Considered(v, Cred, t.cred);
    || Asks(v, Cred, t.cred)
    || (a.ok && (|| Asks(a.view, Access, t.access)
                 || (var b := Considered(a.view, Access, t.access);
                     b.ok && Asks(b.view, KeepAlive, t.keepAlive))))
  }

  // A connection that a request leaves up is as ready as it was.
  predicate ReadyKept(v: View, w: View) {
    w.connected ==> v.connected && Sum(w.trace).ready == Sum(v.trace).ready
  }

  lemma FirstReady(v: View, k: Kind, s: Sending)
    ensures ReadyKept(v, First(v, k, s))
  {
    hide Sum;
    Logged(v, Sent(k, Written(v, k, s).clock));
  }

  lemma AgainReady(v: View, k: Kind, s: Sending)
    ensures ReadyKept(v, Again(v, k, s))
  {
    hide Sum, Min;
    Logged(v, Retried(k, v.clock, Written(Unfulfilled(v, k), k, s).clock, s.outcome == SendOk));
  }

  lemma ConsideredReady(v: View, k: Kind, c: Considering)
    ensures ReadyKept(v, Considered(v, k, c).view)
  {
    hide Sum, First, Again;
    var u := Looked(v, k, c);
    FirstReady(u, k, c.sending);
    AgainReady(u, k, c.sending);
  }

  // The requests of a turn keep the law exactly when none is made or the controller is ready.
  lemma RequestedExact(v: View, t: Turn)
    requires Inv(v) && v.controllerReady
    ensures Lawful(Requested(v, t).view.trace) <==> Lawful(v.trace) && (AsksAny(v, t) ==> Sum(v.trace).ready)
  {
    hide Inv, Fine, Sum, Lawful, Considered;
    ConsideredStep(v, Cred, t.cred);
    ConsideredReady(v, Cred, t.cred);
    var a := Considered(v, Cred, t.cred);
    if a.ok {
      ConsideredStep(a.view, Access, t.access);
      ConsideredReady(a.view, Access, t.access);
      var b := Considered(a.view, Access, t.access);
      if b.ok {
        ConsideredStep(b.view, KeepAlive, t.keepAlive);
      }
    }
  }

  // A turn of the listen loop breaks the law exactly when it makes a request though the
  // controller has not said it is ready, on the connection as it was or in the messages just read.
  lemma ListenTurnExact(v: View, t: Turn)
    requires Inv(v) && Lawful(v.trace)
    ensures var b := Listened(v, t);
            !Lawful(ListenTurn(v, t).view.trace) <==>
              && Considers(b) && AsksAny(b.view, t)
              && !(v.connected && Sum(v.trace).ready) && !HeardReady(Heard(t.inbox, v.config.queueLen))
  {
    hide Sum, Disciplined, Lawful, Interval, Fine, InboxChecked, Requested, ConnectedIf, AsksAny, HeardReady, Heard;
    ConnectedStep(v, t, true);
    var a := ConnectedIf(v, t, true);
    if a.ok {
      InboxStep(a.view, t.inbox, a.view.config.queueLen);
      var b := Listened(v, t);
      if Considers(b) {
        RequestedExact(b.view, t);
      }
    }
  }

  // What a program does that listens: turns of the loop, within a call or the first of the next
  // one after an error or data, acknowledgements of data, and disconnections.
  datatype Call = Listening(turn: Turn) | Acknowledging(kind: Kind, ack: SendOutcome) | Disconnecting

  function Called(v: View, c: Call): View
    requires v.config.Valid() && v.connAttempts < TWO32
  {
    match c
    case Listening(t) => ListenTurn(v, t).view
    case Acknowledging(k, ack) => DataAcknowledged(v, k, ack).view
    case Disconnecting => Ended(v)
  }

  lemma CalledInv(v: View, c: Call)
    requires Inv(v)
    ensures Inv(Called(v, c)) && v.trace <= Called(v, c).trace
  {
    hide Sum, Disciplined, Lawful, Interval, Fine, ListenTurn, Answered, Acknowledged, Down;
    match c
    case Listening(t) => ListenTurnInv(v, t);
    case Acknowledging(k, ack) => DataAcknowledgedStep(v, k, ack);
    case Disconnecting => DownStep(v);
  }

  lemma DataAcknowledgedStep(v: View, k: Kind, ack: SendOutcome)
    ensures Step(v, DataAcknowledged(v, k, ack).view)
  {
    hide Inv, Fine, Answered, Acknowledged;
    SameStep(v);
    AnsweredStep(v, k);
    var u := Answered(v, k);
    AcknowledgedStep(u, ack);
    StepTrans(v, u, Acknowledged(u, ack).view);
  }

  ghost function ListenRun(v: View, calls: seq<Call>): View
    requires Inv(v)
    decreases |calls|
  {
    if calls == [] then v else
    CalledInv(v, calls[0]);
    ListenRun(Called(v, calls[0]), calls[1..])
  }

  // Over every run of a program that listens, the law is kept exactly when no request went out
  // on a flag left over from another connection.
  lemma {:induction false} ListenRunExact(v: View, calls: seq<Call>)
    requires Inv(v)
    ensures var t := ListenRun(v, calls).trace;
            Inv(ListenRun(v, calls)) && v.trace <= t && (Lawful(t) <==> !AskedStale(t))
    decreases |calls|
  {
    hide Sum, Lawful, Disciplined, Called, AskedStale;
    if calls == [] {
      LawfulExactly(v.trace);
    } else {
      CalledInv(v, calls[0]);
      ListenRunExact(Called(v, calls[0]), calls[1..]);
    }
  }

  // A turn of the listen loop on a connection that is ready, with nothing outstanding and no
  // messages: the first of credentials, access data and keep-alive that is due is asked for.
  lemma QuietListenTurn(v: View, t: Turn)
    requires Inv(v) && v.connected && v.controllerReady && v.state == READY && t.inbox == []
    requires t.cred.sending.outcome == t.access.sending.outcome == t.keepAlive.sending.outcome == SendOk
    ensures var r, now := ListenTurn(v, t), v.clock + t.cred.delay;
            var soon := now + t.access.delay;
            var later := soon + t.keepAlive.delay;
            && r.ok
            && r.view.trace == v.trace
               + if now >= v.lastCredUpdate + v.config.credUpdateInterval then [Sent(Cred, now + t.cred.sending.delay)]
                 else if soon >= v.lastAccessRefresh + v.config.accessRefreshInterval
                      then [Sent(Access, soon + t.access.sending.delay)]
                 else if later >= v.lastContact + v.config.keepAliveInterval
                      then [Sent(KeepAlive, later + t.keepAlive.sending.delay)]
                 else []
  {
    hide Sum, Disciplined, Interval;
    FirstExactly(v, Cred, t.cred);
    var c := Considered(v, Cred, t.cred).view;
    if c.state == READY {
      FirstExactly(c, Access, t.access);
      var d := Considered(c, Access, t.access).view;
      if d.state == READY {
        FirstExactly(d, KeepAlive, t.keepAlive);
      } else {
        IdleExactly(d, KeepAlive, t.keepAlive);
      }
    } else {
      IdleExactly(c, Access, t.access);
      IdleExactly(c, KeepAlive, t.keepAlive);
    }
  }

  // ----- the flag that outlives its connection -----

  const ALWAYS: nat -> Try := _ => Try(true, true)
  const WORKING := Considering(0, Sending(SendOk, 0))
  const BROKEN := Considering(0, Sending(WriteFailed, 0))
  const WELCOME := [Received(CredentialsGood, 0, true, SendOk)]

  // A request that cannot be written ends the connection, and the flag stays up.
  function LosingTurn(c: Config): Turn {
    Turn(ALWAYS, c.credUpdateInterval, WELCOME, BROKEN, WORKING, NoSignal, WORKING)
  }

  // The controller says nothing on the next connection, and is asked nonetheless.
  function AskingTurn(): Turn { Turn(ALWAYS, 0, [], WORKING, WORKING, NoSignal, WORKING) }

  lemma LosingTurnLeaves(c: Config)
    requires c.Valid() && c.queueLen >= 1
    ensures var w := ListenTurn(Start(c), LosingTurn(c)).view;
            w.config == c && !w.connected && w.controllerReady && w.state == READY && w.connAttempts == 0
            && w.clock == c.credUpdateInterval && w.lastCredUpdate == 0
  {
    hide InboxChecked;
    var v, t := Start(c), LosingTurn(c);
    var a := ConnectedIf(v, t, true);
    InboxOfOne(a.view, t.inbox[0], c.queueLen);
    var b := Listened(v, t);
    assert Considered(b.view, Cred, t.cred).view == Down(b.view);
  }

  lemma InboxOfOne(v: View, i: Inbound, n: nat)
    requires i == Received(CredentialsGood, 0, true, SendOk) && n >= 1
    ensures InboxChecked(v, [i], n) == Checked(Readied(v), true, None)
  {
    assert [i][1..] == [];
  }

  lemma AskingTurnAsks(w: View)
    requires Inv(w) && !w.connected && w.controllerReady && w.state == READY
    requires w.clock >= w.lastCredUpdate + w.config.credUpdateInterval
    ensures var b := Listened(w, AskingTurn());
            Considers(b) && AsksAny(b.view, AskingTurn()) && !HeardReady(Heard(AskingTurn().inbox, w.config.queueLen))
  {
    hide Sum, Disciplined, Interval;
    assert Asks(Listened(w, AskingTurn()).view, Cred, AskingTurn().cred);
  }

  // With every configuration, two turns of the listen loop can break the law.
  lemma StaleRun(c: Config)
    requires c.Valid() && c.queueLen >= 1
    ensures Inv(Start(c)) && !Lawful(ListenRun(Start(c), [Listening(LosingTurn(c)), Listening(AskingTurn())]).trace)
  {
    hide Inv, Lawful, Sum, ListenTurn;
    var v, t := Start(c), LosingTurn(c);
    StartFine(c);
    FineIs(v);
    LosingTurnLeaves(c);
    var w := ListenTurn(v, t).view;
    ListenTurnInv(v, t);
    ListenTurnExact(v, t);
    assert SaysReady(Heard(t.inbox, c.queueLen)[0]);
    AskingTurnAsks(w);
    ListenTurnInv(w, AskingTurn());
    ListenTurnExact(w, AskingTurn());
    var a, b := Listening(t), Listening(AskingTurn());
    assert [a, b][1..] == [b] && [b][1..] == [];
    assert ListenRun(w, [b]).trace == Called(w, b).trace;
  }
}
