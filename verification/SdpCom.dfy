/**
 The connection part of lib/sdp_com.c. Whether an SPA packet or a connection attempt
 succeeds is up to the environment, which is a parameter.
 */
module SdpCom {
  import opened Common

  const MAX_RETRY_INTERVAL := 7200
  const INT32_MAX := 0x7fff_ffff

  function Min(a: nat, b: nat): nat { if a <= b then a else b }

  function Pow2(k: nat): (p: nat)
    ensures p >= 1
  {
    if k == 0 then 1 else 2 * Pow2(k - 1)
  }

  // The k-th interval of a doubling back-off with a ceiling.
  function Backoff(base: nat, k: nat): nat { Min(MAX_RETRY_INTERVAL, base * Pow2(k)) }

  // Doubling under the ceiling is the next interval.
  lemma BackoffStep(base: nat, k: nat)
    ensures Backoff(base, k + 1) == Min(MAX_RETRY_INTERVAL, 2 * Backoff(base, k))
  {
    assert base * Pow2(k + 1) == 2 * (base * Pow2(k));
  }

  lemma BackoffStart(base: nat)
    requires base <= MAX_RETRY_INTERVAL
    ensures Backoff(base, 0) == base
  {
    assert base * Pow2(0) == base;
  }

  // A 32-bit counter after n more.
  function Counted(a: nat, n: nat): nat { if a + n < TWO32 then a + n else a + n - TWO32 }

  // How one attempt goes: whether the SPA packet is sent and whether the connection comes up.
  datatype Try = Try(spaSent: bool, connects: bool)

  datatype Outcome = ConnectOk | SpaFailed | ConnectFailed

  function Attempted(useSpa: bool, t: Try): Outcome {
    if useSpa && !t.spaSent then SpaFailed else if t.connects then ConnectOk else ConnectFailed
  }

  // The most attempts one call may make: the counter goes on from earlier failed calls.
  function AttemptsLeft(max: nat, prior: nat): nat {
    if prior == TWO32 - 1 then max + 1 else if prior < max then max - prior else 1
  }

  datatype Connection = Connection(outcome: Outcome, tries: nat, attempts: nat)

  // Attempts from the i-th on, until one succeeds, an SPA packet fails or the counter reaches the maximum.
  function Connecting(max: nat, useSpa: bool, world: nat -> Try, attempts: nat, i: nat): Connection
    requires 1 <= max <= INT32_MAX && attempts < TWO32
    decreases AttemptsLeft(max, attempts)
  {
    var o, a := Attempted(useSpa, world(i)), Counted(attempts, 1);
    if o == ConnectOk then Connection(o, i + 1, 0)
    else if o == SpaFailed || a >= max then Connection(o, i + 1, a)
    else Connecting(max, useSpa, world, a, i + 1)
  }

  // An attempt that fails and lets the call go on.
  predicate GoesOn(max: nat, useSpa: bool, t: Try, counter: nat) {
    (useSpa ==> t.spaSent) && !t.connects && counter < max
  }

  // Which attempt is the last one and how it ends the call: an SPA packet that cannot be sent ends it
  // at once, so does a connection, and so does a failure that fills the counter.
  lemma {:induction false} ConnectingExactly(max: nat, useSpa: bool, world: nat -> Try, attempts: nat, i: nat)
    requires 1 <= max <= INT32_MAX && attempts < TWO32
    ensures var c := Connecting(max, useSpa, world, attempts, i);
            && i < c.tries <= i + AttemptsLeft(max, attempts)
            && (forall j | i <= j < c.tries - 1 :: GoesOn(max, useSpa, world(j), Counted(attempts, j + 1 - i)))
            && var last := world(c.tries - 1);
               match c.outcome
               case SpaFailed => useSpa && !last.spaSent && c.attempts == Counted(attempts, c.tries - i)
               case ConnectOk => (useSpa ==> last.spaSent) && last.connects && c.attempts == 0
               case ConnectFailed =>
                 && (useSpa ==> last.spaSent) && !last.connects
                 && c.attempts == Counted(attempts, c.tries - i) >= max && c.tries == i + AttemptsLeft(max, attempts)
    decreases AttemptsLeft(max, attempts)
  {
    var a := Counted(attempts, 1);
    if Attempted(useSpa, world(i)) == ConnectFailed && a < max {
      ConnectingExactly(max, useSpa, world, a, i + 1);
      var c := Connecting(max, useSpa, world, a, i + 1);
      CountedOn(attempts, c.tries - 1 - i);
      forall j | i <= j < c.tries - 1 ensures GoesOn(max, useSpa, world(j), Counted(attempts, j + 1 - i)) {
        if j > i {
          assert GoesOn(max, useSpa, world(j), Counted(a, j + 1 - (i + 1)));
          CountedOn(attempts, j - i);
        }
      }
    }
  }

  lemma ConnectingStep(max: nat, useSpa: bool, world: nat -> Try, attempts: nat, i: nat)
    requires 1 <= max <= INT32_MAX && attempts < TWO32
    ensures var a, t := Counted(attempts, 1), world(i);
            && a < TWO32 && (a < max ==> AttemptsLeft(max, a) < AttemptsLeft(max, attempts))
            && Connecting(max, useSpa, world, attempts, i)
               == if useSpa && !t.spaSent then Connection(SpaFailed, i + 1, a)
                  else if t.connects then Connection(ConnectOk, i + 1, 0)
                  else if a >= max then Connection(ConnectFailed, i + 1, a)
                  else Connecting(max, useSpa, world, a, i + 1)
  {
  }

  // One count and then n more.
  lemma CountedOn(attempts: nat, n: nat)
    requires attempts < TWO32 && Counted(attempts, 1) + n < TWO32
    ensures Counted(attempts, n + 1) == Counted(Counted(attempts, 1), n)
  {
  }

  class Com {
    var connected: bool
    var attempts: nat
    var maxAttempts: nat
    var initialInterval: nat
    var useSpa: bool

    // sdp_com_init refuses zeros, and the configuration larger numbers.
    predicate Valid()
      reads this
    {
      attempts < TWO32 && 1 <= maxAttempts <= INT32_MAX && 1 <= initialInterval <= MAX_RETRY_INTERVAL
    }

    constructor (maxAttempts: nat, initialInterval: nat, useSpa: bool)
      requires 1 <= maxAttempts <= INT32_MAX && 1 <= initialInterval <= MAX_RETRY_INTERVAL
      ensures Valid() && !connected && attempts == 0
      ensures this.maxAttempts == maxAttempts && this.initialInterval == initialInterval && this.useSpa == useSpa
    {
      connected, attempts := false, 0;
      this.maxAttempts, this.initialInterval, this.useSpa := maxAttempts, initialInterval, useSpa;
    }

    method Reset(maxAttempts: nat, initialInterval: nat, useSpa: bool)
      requires 1 <= maxAttempts <= INT32_MAX && 1 <= initialInterval <= MAX_RETRY_INTERVAL
      modifies this
      ensures Valid() && !connected && attempts == 0
      ensures this.maxAttempts == maxAttempts && this.initialInterval == initialInterval && this.useSpa == useSpa
    {
      connected, attempts := false, 0;
      this.maxAttempts, this.initialInterval, this.useSpa := maxAttempts, initialInterval, useSpa;
    }

    // Connects, waiting longer after every failure; returns the number of attempts and the waits.
    method Connect(world: nat -> Try) returns (rv: Outcome, tries: nat, waits: seq<nat>)
      requires Valid()
      modifies this`connected, this`attempts
      ensures Valid()
      ensures rv == ConnectOk <==> connected
      ensures old(connected) ==> tries == 0 && attempts == old(attempts)
      ensures !old(connected) ==>
                Connection(rv, tries, attempts) == Connecting(maxAttempts, useSpa, world, old(attempts), 0)
      ensures !old(connected) ==> 1 <= tries <= AttemptsLeft(maxAttempts, old(attempts))
      ensures !old(connected) && rv != ConnectOk ==> attempts == Counted(old(attempts), tries)
      ensures !old(connected) && rv == ConnectFailed ==>
                attempts >= maxAttempts && tries == AttemptsLeft(maxAttempts, old(attempts))
      ensures forall j | 0 <= j < tries - 1 :: GoesOn(maxAttempts, useSpa, world(j), Counted(old(attempts), j + 1))
      ensures !old(connected) ==> (rv == SpaFailed <==> useSpa && !world(tries - 1).spaSent)
      ensures !old(connected) ==>
                (rv == ConnectOk <==> (useSpa ==> world(tries - 1).spaSent) && world(tries - 1).connects)
      ensures !old(connected) ==> |waits| == tries - 1
      ensures forall i | 0 <= i < |waits| :: waits[i] == Backoff(initialInterval, i)
    {
      hide Backoff, Connecting, Counted, AttemptsLeft, GoesOn;
      rv, tries, waits := ConnectOk, 0, [];
      var interval := initialInterval;
      BackoffStart(initialInterval);
      if connected {
        return;
      }
      ConnectingExactly(maxAttempts, useSpa, world, attempts, 0);
      while true
        invariant Valid() && !connected
        invariant |waits| == tries && interval == Backoff(initialInterval, tries)
        invariant forall i | 0 <= i < |waits| :: waits[i] == Backoff(initialInterval, i)
        invariant Connecting(maxAttempts, useSpa, world, attempts, tries)
               == Connecting(maxAttempts, useSpa, world, old(attempts), 0)
        decreases AttemptsLeft(maxAttempts, attempts)
      {
        ConnectingStep(maxAttempts, useSpa, world, attempts, tries);
        var t := world(tries);
        tries, attempts := tries + 1, Counted(attempts, 1);
        if useSpa && !t.spaSent {
          rv := SpaFailed;
          return;
        }
        if t.connects {
          rv, connected, attempts := ConnectOk, true, 0;
          return;
        }
        if attempts >= maxAttempts {
          rv := ConnectFailed;
          return;
        }
        waits := waits + [interval];
        BackoffStep(initialInterval, tries - 1);
        interval := interval * 2;
        if interval > MAX_RETRY_INTERVAL {
          interval := MAX_RETRY_INTERVAL;
        }
      }
    }

    method Disconnect()
      modifies this`connected
      ensures !connected
    {
      connected := false;
    }
  }
}
