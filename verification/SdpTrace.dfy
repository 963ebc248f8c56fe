/**
 What an observer sees of an SDP control client: connections, messages and requests. A
 trace is lawful when every request in it was sent on a connection on which the
 controller had said it is ready, only one kind of request was ever outstanding, and no
 request and no retry came before its time.
 */
module SdpTrace {
  import opened Common
  import opened SdpCom

  const DEFAULT_RETRY := 10

  datatype Kind = Cred | Service | Access | KeepAlive

  // A time for every kind of request.
  datatype Times = Times(cred: nat, service: nat, access: nat, contact: nat)

  function TimeOf(t: Times, k: Kind): nat {
    match k case Cred => t.cred case Service => t.service case Access => t.access case KeepAlive => t.contact
  }

  datatype Event =
    | Restarted(initial: nat, intervals: Times)  // a start or restart with these configured intervals
    | Connected(flag: bool, at: nat)             // with the client's ready flag down or up
    | Disconnected
    | Good                                       // credentials-good or a credential update arrived
    | Fresh(kind: Kind, at: nat)                 // credentials were stored, data refreshed or a keep-alive answered
    | Answer(kind: Kind)                         // the response to a request of this kind was processed
    | Sent(kind: Kind, at: nat)
    | Retried(kind: Kind, due: nat, at: nat, sent: bool)

  // What a trace amounts to.
  datatype Summary = Summary(
    outstanding: Option<Kind>,  // the kind of the request without a response
    rounds: nat,                // retries since the last response
    answered: bool,             // whether there was a response since the last restart
    lastSent: nat,              // when the outstanding request was last sent
    initial: nat,
    online: bool,
    ready: bool,                // whether the controller said so on this connection
    stale: bool,                // whether the client's flag is left over from another connection
    times: Times,               // when there was last something new of each kind
    intervals: Times)           // how long after that a request is due

  // New credentials count as contact with the controller too.
  function Renewed(t: Times, k: Kind, at: nat): Times {
    match k
    case Cred => t.(cred := at, contact := at)
    case Service => t.(service := at)
    case Access => t.(access := at)
    case KeepAlive => t.(contact := at)
  }

  function After(s: Summary, e: Event): Summary {
    match e
    case Restarted(initial, intervals) =>
      Summary(None, 0, false, 0, initial, false, false, false, Times(0, 0, 0, 0), intervals)
    case Connected(flag, at) => s.(online := true, ready := false, stale := flag, times := s.times.(contact := at))
    case Disconnected => s.(online := false, ready := false, stale := false)
    case Good => s.(ready := true, stale := false)
    case Fresh(k, at) => s.(times := Renewed(s.times, k, at))
    case Answer(k) =>
      if s.outstanding == Some(k) then s.(outstanding := None, rounds := 0, answered := true, lastSent := 0) else s
    case Sent(k, at) => s.(outstanding := Some(k), lastSent := at)
    case Retried(k, due, at, sent) => s.(rounds := s.rounds + 1, lastSent := if sent then at else s.lastSent)
  }

  function Sum(t: seq<Event>): Summary {
    if t == [] then Summary(None, 0, false, 0, 0, false, false, false, Times(0, 0, 0, 0), Times(0, 0, 0, 0))
    else After(Sum(t[..|t| - 1]), t[|t| - 1])
  }

  // Ten seconds before the first response, then the configured interval, doubled with every retry.
  function Interval(s: Summary): nat { Backoff(if s.answered then s.initial else DEFAULT_RETRY, s.rounds) }

  // The interval changes with retries, responses and restarts only.
  lemma IntervalAfter(s: Summary, e: Event)
    ensures e.Retried? ==> Interval(After(s, e)) == Min(MAX_RETRY_INTERVAL, 2 * Interval(s))
    ensures e.Restarted? ==> Interval(After(s, e)) == DEFAULT_RETRY
    ensures e.Answer? && s.outstanding == Some(e.kind) && s.initial <= MAX_RETRY_INTERVAL ==>
              Interval(After(s, e)) == s.initial
    ensures e.Connected? || e.Disconnected? || e.Good? || e.Fresh? || e.Sent? ==> Interval(After(s, e)) == Interval(s)
  {
    hide Backoff;
    BackoffStep(if s.answered then s.initial else DEFAULT_RETRY, s.rounds);
    BackoffStart(DEFAULT_RETRY);
    if s.initial <= MAX_RETRY_INTERVAL {
      BackoffStart(s.initial);
    }
  }

  // A request at its time: none of another kind outstanding, on a connection, and none too early.
  predicate Timely(s: Summary, e: Event) {
    match e
    case Sent(k, at) => s.outstanding.None? && s.online && at >= TimeOf(s.times, k) + TimeOf(s.intervals, k)
    case Retried(k, due, at, _) => s.outstanding == Some(k) && s.online && due >= s.lastSent + Interval(s) && at >= due
    case _ => true
  }

  predicate Request(e: Event) { e.Sent? || e.Retried? }

  // And the controller has said on this connection that it is ready.
  predicate Allowed(s: Summary, e: Event) { Timely(s, e) && (Request(e) ==> s.ready) }

  predicate Lawful(t: seq<Event>) {
    t == [] || (Lawful(t[..|t| - 1]) && Allowed(Sum(t[..|t| - 1]), t[|t| - 1]))
  }

  // What any client does that waits for its flag: the flag is up because the controller is
  // ready or because it was never taken down.
  predicate Proper(s: Summary, e: Event) { Timely(s, e) && (Request(e) ==> s.ready || s.stale) }

  predicate Disciplined(t: seq<Event>) {
    t == [] || (Disciplined(t[..|t| - 1]) && Proper(Sum(t[..|t| - 1]), t[|t| - 1]))
  }

  lemma Extend(t: seq<Event>, e: Event)
    ensures Sum(t + [e]) == After(Sum(t), e)
    ensures Lawful(t + [e]) <==> Lawful(t) && Allowed(Sum(t), e)
    ensures Disciplined(t + [e]) <==> Disciplined(t) && Proper(Sum(t), e)
  {
    assert (t + [e])[..|t|] == t;
  }

  // ----- what lawful traces are like -----

  lemma {:induction false} LawfulAt(t: seq<Event>, i: nat)
    requires Lawful(t) && i < |t|
    ensures Lawful(t[..i]) && Allowed(Sum(t[..i]), t[i])
  {
    if i < |t| - 1 {
      LawfulAt(t[..|t| - 1], i);
      assert t[..|t| - 1][..i] == t[..i];
    }
  }

  predicate EndsConnection(e: Event) { e.Connected? || e.Disconnected? || e.Restarted? }

  predicate Quiet(t: seq<Event>, j: int, i: int)
    requires -1 <= j && i <= |t|
  {
    forall m | j < m < i :: !EndsConnection(t[m])
  }

  lemma {:induction false} ReadyMeans(t: seq<Event>) returns (j: nat)
    requires Sum(t).ready
    ensures j < |t| && t[j] == Good && Quiet(t, j, |t|)
  {
    var n := |t| - 1;
    if t[n] == Good {
      j := n;
    } else {
      j := ReadyMeans(t[..n]);
      forall m | j < m < |t| ensures !EndsConnection(t[m]) {
        if m < n {
          assert t[m] == t[..n][m];
        }
      }
    }
  }

  // No request goes out before the controller said on the same connection that it is ready.
  lemma ReadyBeforeRequest(t: seq<Event>, i: nat) returns (j: nat)
    requires Lawful(t) && i < |t| && Request(t[i])
    ensures j < i && t[j] == Good && Quiet(t, j, i)
  {
    LawfulAt(t, i);
    j := ReadyMeans(t[..i]);
    forall m | j < m < i ensures !EndsConnection(t[m]) {
      assert t[m] == t[..i][m];
    }
    assert t[j] == t[..i][j];
  }

  predicate Clears(e: Event, k: Kind) { e == Answer(k) || e.Restarted? }

  lemma {:induction false} StillOutstanding(t: seq<Event>, i: nat, n: nat, k: Kind)
    requires Lawful(t) && i < n <= |t| && Request(t[i]) && t[i].kind == k
    requires forall m | i < m < n :: !Clears(t[m], k)
    ensures Sum(t[..n]).outstanding == Some(k)
  {
    LawfulAt(t, n - 1);
    assert t[..n][..n - 1] == t[..n - 1];
    if i < n - 1 {
      StillOutstanding(t, i, n - 1, k);
    }
  }

  // Between requests of two kinds the first one is answered or the client restarted.
  lemma KindsDoNotMix(t: seq<Event>, i: nat, j: nat)
    requires Lawful(t) && i < j < |t| && Request(t[i]) && Request(t[j]) && t[i].kind != t[j].kind
    ensures exists m :: i < m < j && Clears(t[m], t[i].kind)
  {
    if forall m | i < m < j :: !Clears(t[m], t[i].kind) {
      StillOutstanding(t, i, j, t[i].kind);
      LawfulAt(t, j);
    }
  }

  // A retry is due no earlier than the back-off interval after the request was last sent.
  lemma RetrySpacing(t: seq<Event>, i: nat, j: nat)
    requires Lawful(t) && i < j < |t| && t[j].Retried?
    requires t[i].Sent? || (t[i].Retried? && t[i].sent)
    requires forall m | i < m < j :: !Request(t[m]) && !t[m].Answer? && !t[m].Restarted?
    ensures t[j].at >= t[i].at + Interval(Sum(t[..j]))
  {
    LawfulAt(t, j);
    SentLast(t, i, j);
  }

  lemma {:induction false} SentLast(t: seq<Event>, i: nat, n: nat)
    requires i < n <= |t| && (t[i].Sent? || (t[i].Retried? && t[i].sent))
    requires forall m | i < m < n :: !Request(t[m]) && !t[m].Answer? && !t[m].Restarted?
    ensures Sum(t[..n]).lastSent == t[i].at
  {
    assert t[..n][..n - 1] == t[..n - 1];
    if i < n - 1 {
      SentLast(t, i, n - 1);
    }
  }

  // Something new of a kind, at a time.
  predicate Renews(e: Event, k: Kind, at: nat) {
    || e == Fresh(k, at)
    || (k == KeepAlive && (e == Fresh(Cred, at) || (e.Connected? && e.at == at)))
  }

  ghost predicate RenewsSome(e: Event, k: Kind) { exists at: nat :: Renews(e, k, at) }

  lemma {:induction false} LastRenewed(t: seq<Event>, i: nat, n: nat, k: Kind, at: nat)
    requires i < n <= |t| && Renews(t[i], k, at)
    requires forall m | i < m < n :: !RenewsSome(t[m], k) && !t[m].Restarted?
    ensures TimeOf(Sum(t[..n]).times, k) == at
  {
    assert t[..n][..n - 1] == t[..n - 1];
    if i < n - 1 {
      LastRenewed(t, i, n - 1, k, at);
      NotRenewed(Sum(t[..n - 1]), t[n - 1], k);
    }
  }

  lemma NotRenewed(s: Summary, e: Event, k: Kind)
    requires !RenewsSome(e, k) && !e.Restarted?
    ensures TimeOf(After(s, e).times, k) == TimeOf(s.times, k)
  {
    if e.Fresh? || e.Connected? {
      assert !Renews(e, k, e.at);
    }
  }

  lemma {:induction false} IntervalsSince(t: seq<Event>, r: nat, n: nat)
    requires r < n <= |t| && t[r].Restarted? && forall m | r < m < n :: !t[m].Restarted?
    ensures Sum(t[..n]).intervals == t[r].intervals
  {
    assert t[..n][..n - 1] == t[..n - 1];
    if r < n - 1 {
      IntervalsSince(t, r, n - 1);
    }
  }

  // A first request of a kind comes no earlier than the configured interval after there was last
  // something new of that kind.
  lemma FirstSpacing(t: seq<Event>, r: nat, i: nat, j: nat, at: nat)
    requires Lawful(t) && r < i < j < |t| && t[j].Sent? && t[r].Restarted? && Renews(t[i], t[j].kind, at)
    requires forall m | r < m < j :: !t[m].Restarted?
    requires forall m | i < m < j :: !RenewsSome(t[m], t[j].kind)
    ensures t[j].at >= at + TimeOf(t[r].intervals, t[j].kind)
  {
    LawfulAt(t, j);
    LastRenewed(t, i, j, t[j].kind, at);
    IntervalsSince(t, r, j);
  }

  // ----- what separates disciplined traces from lawful ones -----

  lemma {:induction false} ReadyIsNotStale(t: seq<Event>)
    ensures !(Sum(t).ready && Sum(t).stale)
  {
    if t != [] {
      ReadyIsNotStale(t[..|t| - 1]);
    }
  }

  // A flag is stale exactly since a connection that began with it up and heard nothing yet.
  predicate StaleSince(t: seq<Event>, j: nat) {
    j < |t| && t[j].Connected? && t[j].flag && forall m | j < m < |t| :: !EndsConnection(t[m]) && t[m] != Good
  }

  lemma {:induction false} StaleMeans(t: seq<Event>)
    ensures Sum(t).stale <==> exists j: nat :: StaleSince(t, j)
  {
    if t != [] {
      var n := |t| - 1;
      var u, e := t[..n], t[n];
      StaleMeans(u);
      if Sum(t).stale {
        if e.Connected? && e.flag {
          assert StaleSince(t, n);
        } else {
          var j: nat :| StaleSince(u, j);
          forall m | j < m < |t| ensures !EndsConnection(t[m]) && t[m] != Good {
            assert m < n ==> t[m] == u[m];
          }
          assert StaleSince(t, j);
        }
      }
      forall j: nat | StaleSince(t, j) ensures Sum(t).stale {
        if j < n {
          assert forall m | 0 <= m < n :: u[m] == t[m];
          assert StaleSince(u, j);
          assert !EndsConnection(t[n]) && t[n] != Good;
        }
      }
    }
  }

  // A request went out on a flag left over since the connection at j.
  predicate AskedStaleAt(t: seq<Event>, i: nat, j: nat) { i < |t| && Request(t[i]) && StaleSince(t[..i], j) }

  ghost predicate AskedStale(t: seq<Event>) { exists i: nat, j: nat :: AskedStaleAt(t, i, j) }

  lemma AskedStaleLast(t: seq<Event>, e: Event)
    ensures AskedStale(t + [e]) <==> AskedStale(t) || (Request(e) && Sum(t).stale)
  {
    var u := t + [e];
    StaleMeans(t);
    assert u[..|t|] == t;
    assert forall i: nat | i < |t| :: u[..i] == t[..i] && u[i] == t[i];
    if AskedStale(t) {
      var i: nat, j: nat :| AskedStaleAt(t, i, j);
      assert AskedStaleAt(u, i, j);
    }
    if Request(e) && Sum(t).stale {
      var j: nat :| StaleSince(t, j);
      assert AskedStaleAt(u, |t|, j);
    }
    if AskedStale(u) {
      var i: nat, j: nat :| AskedStaleAt(u, i, j);
      assert i < |t| ==> AskedStaleAt(t, i, j);
    }
  }

  // A disciplined trace breaks the law exactly when a request went out on a left-over flag.
  lemma {:induction false} LawfulExactly(t: seq<Event>)
    requires Disciplined(t)
    ensures Lawful(t) <==> !AskedStale(t)
  {
    hide AskedStale;
    if t == [] {
      NothingAsked();
    } else {
      var n := |t| - 1;
      LawfulExactly(t[..n]);
      ReadyIsNotStale(t[..n]);
      AskedStaleLast(t[..n], t[n]);
      assert t == t[..n] + [t[n]];
    }
  }

  lemma NothingAsked()
    ensures !AskedStale([])
  {
  }
}
