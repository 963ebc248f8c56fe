/**
 The control client of lib/sdp_ctrl_client.c as it works on its fields. Every method does to
 them what the machine of SdpMachine does, so that what holds of every run of the machine
 holds of the client.
 */
module SdpClient {
  import opened Common
  import opened SdpCom
  import opened SdpTrace
  import opened SdpMachine

  class Client {
    const com: Com
    var config: Config
    var state: ClientState
    var controllerReady: bool
    var lastContact: nat
    var lastCredUpdate: nat
    var lastServiceRefresh: nat
    var lastAccessRefresh: nat
    var lastReqTime: nat
    var reqAttempts: nat
    var retryInterval: nat
    var clock: nat

    ghost var trace: seq<Event>

    predicate Valid()
      reads this, com
    {
      && com.Valid() && config.Valid()
      && com.maxAttempts == config.maxConnAttempts && com.initialInterval == config.initialConnInterval
      && com.useSpa == config.useSpa
    }

    ghost function Fields(): View
      reads this, com
    {
      View(config, com.connected, com.attempts, controllerReady, state, lastContact, lastCredUpdate,
           lastServiceRefresh, lastAccessRefresh, lastReqTime, reqAttempts, retryInterval, clock, trace)
    }

    constructor (config: Config)
      requires config.Valid()
      ensures Valid() && fresh(com) && Fields() == Start(config) && Fine(Fields())
    {
      hide Fine;
      this.config := config;
      com := new Com(config.maxConnAttempts, config.initialConnInterval, config.useSpa);
      state, controllerReady := READY, false;
      lastContact, lastCredUpdate, lastServiceRefresh, lastAccessRefresh := 0, 0, 0, 0;
      lastReqTime, reqAttempts, retryInterval, clock := 0, 0, DEFAULT_RETRY, 0;
      trace := [Starting(config)];
      new;
      StartFine(config);
    }

    method Time(delay: nat) returns (t: nat)
      modifies this`clock
      ensures t == clock == old(clock) + delay && Fields() == Tick(old(Fields()), delay)
    {
      clock := clock + delay;
      t := clock;
    }

    method Disconnect()
      requires Valid()
      modifies this`trace, com`connected
      ensures Valid() && Fields() == Ended(old(Fields()))
    {
      if com.connected {
        trace := trace + [Disconnected];
      }
      com.Disconnect();
    }

    // A failed write takes the connection down; without a connection nothing is written.
    method Acknowledge(ack: SendOutcome) returns (ok: bool)
      requires Valid()
      modifies this`trace, com`connected
      ensures Valid() && Result(Fields(), ok) == Acknowledged(old(Fields()), ack)
    {
      if !com.connected {
        return false;
      }
      if ack == WriteFailed {
        Disconnect();
      }
      ok := ack == SendOk;
    }

    method ClearStateVars(ghost k: Kind)
      requires Valid() && KindOf(state) == Some(k)
      modifies this
      ensures Valid() && Fields() == Answered(old(Fields()), k)
    {
      lastReqTime, retryInterval, reqAttempts, state := 0, config.initialReqInterval, 0, READY;
      trace := trace + [SdpTrace.Answer(k)];
    }

    // A response to the outstanding request, if it is of this kind.
    method Answer(k: Kind)
      requires Valid()
      modifies this
      ensures Valid() && Fields() == Answered(old(Fields()), k)
    {
      if state == REQUESTING(k) || state == UNFULFILLED(k) {
        ClearStateVars(k);
      }
    }

    // sdp_ctrl_client_request_cred_update and its three likes: nothing is sent without a connection
    // or while a request of another kind is outstanding.
    method Request(k: Kind, s: Sending) returns (o: SendOutcome)
      requires Valid()
      modifies this`state, this`lastReqTime, this`reqAttempts, this`clock, com`connected
      ensures Valid()
      ensures if old(com.connected) && (old(state) == READY || KindOf(old(state)) == Some(k))
              then o == s.outcome && Fields() == Written(old(Fields()), k, s)
              else o == NotSent && Fields() == old(Fields())
    {
      if !com.connected {
        return NotSent;
      }
      if state != READY && state != REQUESTING(k) && state != UNFULFILLED(k) {
        return NotSent;
      }
      o := s.outcome;
      if o == WriteFailed {
        com.Disconnect();
      }
      if o == SendOk {
        SetRequestVars(k, s.delay);
      }
    }

    method SetRequestVars(k: Kind, delay: nat)
      requires Valid()
      modifies this`state, this`lastReqTime, this`reqAttempts, this`clock
      ensures Valid() && Fields() == Written(old(Fields()), k, Sending(SendOk, delay))
    {
      state, reqAttempts := REQUESTING(k), reqAttempts + 1;
      lastReqTime := Time(delay);
    }

    method Double(k: Kind)
      requires Valid()
      modifies this`state, this`retryInterval
      ensures Valid() && Fields() == Unfulfilled(old(Fields()), k)
    {
      state := UNFULFILLED(k);
      retryInterval := retryInterval * 2;
      if retryInterval > MAX_RETRY_INTERVAL {
        retryInterval := MAX_RETRY_INTERVAL;
      }
    }

    ghost method Note(e: Event)
      requires Valid()
      modifies this`trace
      ensures Valid() && Fields() == Log(old(Fields()), e)
    {
      trace := trace + [e];
    }

    method RequestFirst(k: Kind, s: Sending) returns (o: SendOutcome)
      requires Valid() && com.connected && state == READY
      modifies this, com`connected
      ensures Valid() && o == s.outcome && Fields() == First(old(Fields()), k, s)
    {
      hide Written, Log;
      o := Request(k, s);
      if o == SendOk {
        Note(Sent(k, clock));
      } else if o == WriteFailed {
        Note(Disconnected);
      }
    }

    method RequestAgain(k: Kind, s: Sending) returns (o: SendOutcome)
      requires Valid() && com.connected && KindOf(state) == Some(k)
      modifies this, com`connected
      ensures Valid() && o == s.outcome && Fields() == Again(old(Fields()), k, s)
    {
      hide Written, Log;
      ghost var due := clock;
      Double(k);
      o := Request(k, s);
      Note(Retried(k, due, clock, o == SendOk));
      if o == WriteFailed {
        Note(Disconnected);
      }
    }

    // The connection goes down and the attempts start over, with the request still outstanding.
    method GiveUp()
      requires Valid() && com.connected
      modifies this, com`connected
      ensures Valid() && Fields() == Down(old(Fields()).(reqAttempts := 0))
    {
      Disconnect();
      reqAttempts := 0;
    }

    // sdp_ctrl_client_consider_cred_update and its three likes.
    method Consider(k: Kind, c: Considering) returns (ok: bool)
      requires Valid()
      modifies this, com`connected
      ensures Valid() && Result(Fields(), ok) == Considered(old(Fields()), k, c)
    {
      hide First, Again;
      var o;
      ok := true;
      if !com.connected {
        return;
      }
      if state == READY {
        var ts := Time(c.delay);
        if ts < Due(k) {
          return;
        }
        o := RequestFirst(k, c.sending);
      } else if state == REQUESTING(k) || state == UNFULFILLED(k) {
        var ts := Time(c.delay);
        if ts < lastReqTime + retryInterval {
          return;
        }
        if reqAttempts >= config.maxReqAttempts {
          GiveUp();
          return;
        }
        o := RequestAgain(k, c.sending);
      } else {
        return;
      }
      ok := o != NoMemory;
    }

    function Due(k: Kind): (t: nat)
      reads this, com
      ensures t == DueTime(Fields(), k)
    {
      match k
      case Cred => lastCredUpdate + config.credUpdateInterval
      case Service => lastServiceRefresh + config.serviceRefreshInterval
      case Access => lastAccessRefresh + config.accessRefreshInterval
      case KeepAlive => lastContact + config.keepAliveInterval
    }

    // ----- incoming messages -----

    // New credentials are stored, if that works, and acknowledged, if that works.
    method ProcessCredUpdate(delay: nat, saved: bool, ack: SendOutcome) returns (ok: bool)
      requires Valid()
      modifies this, com`connected
      ensures Valid() && (!saved ==> !ok && Fields() == old(Fields()))
      ensures saved ==> Result(Fields(), ok) == Acknowledged(Answered(Updated(Tick(old(Fields()), delay)), Cred), ack)
    {
      hide Answered, Acknowledged, Updated;
      if !saved {
        return false;
      }
      Update(delay);
      Answer(Cred);
      ok := Acknowledge(ack);
    }

    method Update(delay: nat)
      requires Valid()
      modifies this`lastContact, this`lastCredUpdate, this`clock, this`trace
      ensures Valid() && Fields() == Updated(Tick(old(Fields()), delay))
    {
      lastContact := Time(delay);
      lastCredUpdate := lastContact;
      trace := trace + [Fresh(Cred, clock)];
    }

    // The caller's acknowledgement of service or access data.
    method SendDataAck(k: Kind, ack: SendOutcome) returns (ok: bool)
      requires Valid()
      modifies this, com`connected
      ensures Valid() && Result(Fields(), ok) == DataAcknowledged(old(Fields()), k, ack)
    {
      hide Answered, Acknowledged;
      if k != Service && k != Access {
        return false;
      }
      Answer(k);
      ok := Acknowledge(ack);
    }

    // Acts on one message; data for the caller is handed on.
    method Act(m: Message, delay: nat, saved: bool, ack: SendOutcome) returns (ok: bool)
      requires Valid()
      modifies this, com`connected
      ensures Valid() && Result(Fields(), ok) == Acted(old(Fields()), m, delay, saved, ack)
    {
      hide Answered, Acknowledged, Refreshed, Readied, Contacted, Updated;
      ok := true;
      match m
      case CredentialsGood =>
        SetReady();
      case KeepAliveReply =>
        ProcessKeepAlive(delay);
      case CredentialUpdate =>
        SetReady();
        ok := ProcessCredUpdate(delay, saved, ack);
      case Data(k, refresh) =>
        if refresh {
          Refresh(k, delay);
        }
      case UnknownMessage =>
    }

    method SetReady()
      requires Valid()
      modifies this`controllerReady, this`trace
      ensures Valid() && Fields() == Readied(old(Fields()))
    {
      controllerReady, trace := true, trace + [Good];
    }

    method Refresh(k: Kind, delay: nat)
      requires Valid()
      modifies this`lastServiceRefresh, this`lastAccessRefresh, this`clock, this`trace
      ensures Valid() && Fields() == Refreshed(old(Fields()), k, delay)
    {
      var now := Time(delay);
      if k == Service {
        lastServiceRefresh, trace := now, trace + [Fresh(Service, now)];
      } else if k == Access {
        lastAccessRefresh, trace := now, trace + [Fresh(Access, now)];
      }
    }

    method ProcessKeepAlive(delay: nat)
      requires Valid()
      modifies this
      ensures Valid() && Fields() == Answered(Contacted(Tick(old(Fields()), delay)), KeepAlive)
    {
      hide Answered;
      lastContact := Time(delay);
      trace := trace + [Fresh(KeepAlive, clock)];
      Answer(KeepAlive);
    }

    // Up to a queue length of messages; stops early at data for the caller.
    method CheckInbox(inbox: seq<Inbound>) returns (ok: bool, data: Option<Kind>)
      requires Valid()
      modifies this, com`connected
      ensures Valid() && Checked(Fields(), ok, data) == InboxChecked(old(Fields()), inbox, old(config.queueLen))
    {
      hide Acted, Step, Sum, Lawful, SaysReady;
      ok, data := true, None;
      var count := 0;
      ghost var queueLen := config.queueLen;
      while count < config.queueLen && count < |inbox|
        invariant Valid() && ok && data.None? && config.queueLen == queueLen && count <= queueLen && count <= |inbox|
        invariant InboxChecked(Fields(), inbox[count..], queueLen - count)
               == InboxChecked(old(Fields()), inbox, queueLen)
      {
        var i := inbox[count];
        assert inbox[count..][0] == i && inbox[count..][1..] == inbox[count + 1..];
        count := count + 1;
        if !i.Received? {
          ok := false;
          return;
        }
        ActedStep(Fields(), i.message, i.delay, i.saved, i.ack);
        ok := Act(i.message, i.delay, i.saved, i.ack);
        if !ok {
          return;
        }
        if i.message.Data? {
          data := Some(i.message.kind);
          return;
        }
      }
    }

    // ----- signals -----

    // SIGHUP: everything starts over with the configuration read again.
    method RestartMyself(c: Option<Config>) returns (ok: bool)
      requires Valid()
      modifies this, com
      ensures Valid() && Result(Fields(), ok) == Signalled(old(Fields()), Hangup(c))
    {
      hide Ended, StartedOver;
      Disconnect();
      if c.None? || !c.value.Valid() {
        return false;
      }
      StartOver(c.value);
      ok := true;
    }

    method StartOver(c: Config)
      requires Valid() && c.Valid()
      modifies this, com
      ensures Valid() && Fields() == StartedOver(old(Fields()), c)
    {
      com.Reset(c.maxConnAttempts, c.initialConnInterval, c.useSpa);
      ZeroTimes();
      config, state, controllerReady := c, READY, false;
      reqAttempts, retryInterval := 0, DEFAULT_RETRY;
      trace := trace + [Starting(c)];
    }

    method ZeroTimes()
      modifies this`lastContact, this`lastCredUpdate, this`lastServiceRefresh, this`lastAccessRefresh, this`lastReqTime
      ensures lastContact == lastCredUpdate == lastServiceRefresh == lastAccessRefresh == lastReqTime == 0
    {
      lastContact, lastCredUpdate, lastServiceRefresh, lastAccessRefresh, lastReqTime := 0, 0, 0, 0, 0;
    }

    method HandleSignals(s: Signal) returns (ok: bool)
      requires Valid()
      modifies this, com
      ensures Valid() && Result(Fields(), ok) == Signalled(old(Fields()), s)
    {
      match s
      case Hangup(c) => ok := RestartMyself(c);
      case Exit => ok := false;
      case _ => ok := true;
    }

    // ----- the run loop -----

    method ConnectAnew(t: Turn, keepFlag: bool) returns (ok: bool)
      requires Valid()
      modifies this, com
      ensures Valid() && Result(Fields(), ok) == ConnectedIf(old(Fields()), t, keepFlag)
    {
      hide Connecting;
      if !com.connected {
        var outcome, tries, waits := com.Connect(t.connect);
        if outcome != ConnectOk {
          return false;
        }
        lastContact := Time(t.delay);
        if !keepFlag {
          controllerReady := false;
        }
        trace := trace + [Connected(controllerReady, clock)];
      }
      ok := true;
    }

    // One turn of the loop; the loop goes on after success.
    method LoopTurn(t: Turn) returns (ok: bool)
      requires Valid()
      modifies this, com
      ensures Valid() && Result(Fields(), ok) == SdpMachine.LoopTurn(old(Fields()), t)
    {
      hide ConnectedIf, InboxChecked, Considered, Signalled;
      ok := ConnectAnew(t, false);
      if !ok {
        return;
      }
      var data;
      ok, data := CheckInbox(t.inbox);
      if !ok || !controllerReady {
        return;
      }
      ok := Consider(Cred, t.cred);
      if !ok {
        return;
      }
      if !config.remainConnected && lastCredUpdate > 0 {
        return false;
      }
      ok := HandleSignals(t.signal);
      if !ok {
        return;
      }
      ok := Consider(KeepAlive, t.keepAlive);
    }

    // Turn after turn, until an error, an exit signal or the end of a one-time update: whatever
    // happens, the client ends disconnected and its trace is lawful.
    method Loop(turns: seq<Turn>)
      requires Valid() && Fine(Fields())
      modifies this, com
      ensures Valid() && Fields() == LoopRun(old(Fields()), turns)
      ensures Fine(Fields()) && Lawful(trace) && old(trace) <= trace && !com.connected
    {
      hide Inv, Truthful, Lawful, SdpMachine.LoopTurn;
      LoopRunFine(Fields(), turns);
      var i := 0;
      while i < |turns|
        invariant Valid() && Fine(Fields()) && i <= |turns|
        invariant LoopRun(Fields(), turns[i..]) == LoopRun(old(Fields()), turns)
      {
        LoopTurnFine(Fields(), turns[i]);
        assert turns[i..][0] == turns[i] && turns[i..][1..] == turns[i + 1..];
        var ok := LoopTurn(turns[i]);
        if !ok {
          break;
        }
        i := i + 1;
      }
      Disconnect();
    }

    // ----- sdp_ctrl_client_listen -----

    // A turn of the loop that does not take the flag down when it reconnects.
    method ListenTurn(t: Turn) returns (ok: bool, data: Option<Kind>)
      requires Valid()
      modifies this, com
      ensures Valid() && Checked(Fields(), ok, data) == SdpMachine.ListenTurn(old(Fields()), t)
    {
      hide ConnectedIf, InboxChecked, Considered;
      data := None;
      ok := ConnectAnew(t, true);
      if !ok {
        return;
      }
      ok, data := CheckInbox(t.inbox);
      if !ok || data.Some? || !controllerReady {
        return;
      }
      ok := Consider(Cred, t.cred);
      if !ok {
        return;
      }
      ok := Consider(Access, t.access);
      if !ok {
        return;
      }
      ok := Consider(KeepAlive, t.keepAlive);
    }

    // Over any run of a program that listens, the law is kept exactly when no request goes out
    // on a flag left over from another connection.
    method Listen(calls: seq<Call>)
      requires Valid() && Inv(Fields())
      modifies this, com
      ensures Valid() && Fields() == ListenRun(old(Fields()), calls)
      ensures Inv(Fields()) && old(trace) <= trace
      ensures Lawful(trace) <==> !AskedStale(trace)
    {
      hide Inv, Lawful, AskedStale, SdpMachine.ListenTurn;
      ListenRunExact(Fields(), calls);
      for i := 0 to |calls|
        invariant Valid() && Inv(Fields())
        invariant ListenRun(Fields(), calls[i..]) == ListenRun(old(Fields()), calls)
      {
        var c := calls[i];
        assert calls[i..][0] == c && calls[i..][1..] == calls[i + 1..];
        CalledInv(Fields(), c);
        MakeCall(c);
      }
      assert calls[|calls|..] == [];
    }

    method MakeCall(c: Call)
      requires Valid()
      modifies this, com
      ensures Valid() && Fields() == Called(old(Fields()), c)
    {
      hide SdpMachine.ListenTurn, DataAcknowledged;
      match c
      case Listening(t) =>
        var ok, data := ListenTurn(t);
      case Acknowledging(k, ack) =>
        var ok := SendDataAck(k, ack);
      case Disconnecting =>
        Disconnect();
    }
  }
}
