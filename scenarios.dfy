/** Sequences of sends from one client, and what the lockout of
    `POST /api/send` (server.py) promises about them. */
module Scenarios {
  import opened Request
  import opened Lockout

  /** One send: the form's `user` field and the moment it arrives. */
  datatype Attempt = Attempt(user: string, at: Time)

  /** A client's sends in order: its record after them and every response. */
  function Run(st: Record, attempts: seq<Attempt>): (out: (Record, seq<SendResponse>))
    ensures |out.1| == |attempts|
  {
    if attempts == [] then (st, [])
    else
      var (mid, rs) := Run(st, attempts[..|attempts| - 1]);
      var last := attempts[|attempts| - 1];
      var (st', r) := Step(mid, last.user, last.at);
      (st', rs + [r])
  }

  /** The arrival times of a run of sends. */
  function Times(attempts: seq<Attempt>): (ts: seq<Time>)
    ensures |ts| == |attempts| && forall i :: 0 <= i < |ts| ==> ts[i] == attempts[i].at
  {
    if attempts == [] then [] else Times(attempts[..|attempts| - 1]) + [attempts[|attempts| - 1].at]
  }

  /** Running two batches of sends one after the other is running them
      together. */
  lemma {:induction false} RunConcat(st: Record, a: seq<Attempt>, b: seq<Attempt>)
    ensures var (mid, ra) := Run(st, a);
            var (fin, rb) := Run(mid, b);
            Run(st, a + b) == (fin, ra + rb)
  {
    if b == [] {
      assert a + b == a;
      var (mid, ra) := Run(st, a);
      assert ra + [] == ra;
    } else {
      var b' := b[..|b| - 1];
      assert (a + b)[..|a + b| - 1] == a + b';
      assert (a + b)[|a + b| - 1] == b[|b| - 1];
      RunConcat(st, a, b');
      var (mid, ra) := Run(st, a);
      var (m2, rb') := Run(mid, b');
      var (fin, r) := Step(m2, b[|b| - 1].user, b[|b| - 1].at);
      assert ra + rb' + [r] == ra + (rb' + [r]);
    }
  }

  /** While a lock holds, nothing gets through: every send, an operator
      send included, is refused as cooling down with a positive delay, and
      the record is left exactly as it was. */
  lemma {:induction false} RunWhileLocked(st: Record, attempts: seq<Attempt>)
    requires forall i :: 0 <= i < |attempts| ==> attempts[i].at < st.lockUntil
    ensures Run(st, attempts).0 == st
    ensures forall i :: 0 <= i < |attempts| ==>
      Run(st, attempts).1[i].Locked? && Run(st, attempts).1[i].message == COOLING_DOWN &&
      Run(st, attempts).1[i].retryAfter >= 1
  {
    if attempts != [] {
      var init := attempts[..|attempts| - 1];
      RunWhileLocked(st, init);
    }
  }

  /** Non-operator sends. */
  predicate NoOperator(attempts: seq<Attempt>)
  {
    forall i :: 0 <= i < |attempts| ==> attempts[i].user != OPERATOR
  }

  /** Sends each more than FAIL_WINDOW seconds after the previous one. */
  predicate SpacedOut(attempts: seq<Attempt>)
  {
    forall i :: 0 < i < |attempts| ==> attempts[i].at > attempts[i - 1].at + FAIL_WINDOW
  }

  /** Failures spaced more than FAIL_WINDOW apart never lock a new client:
      each one is accepted, and the record only ever holds the latest. */
  lemma {:induction false} RunSpacedOut(attempts: seq<Attempt>)
    requires NoOperator(attempts) && SpacedOut(attempts)
    requires attempts != [] ==> 0.0 <= attempts[0].at
    ensures forall i :: 0 <= i < |attempts| ==> Run(FRESH, attempts).1[i] == Accepted(false)
    ensures attempts != [] ==> Run(FRESH, attempts).0 == Record([attempts[|attempts| - 1].at], 0.0)
  {
    if attempts != [] {
      var n := |attempts|;
      var init := attempts[..n - 1];
      RunSpacedOut(init);
      var (mid, rs) := Run(FRESH, init);
      if n == 1 {
        assert mid == FRESH;
      } else {
        assert mid == Record([attempts[n - 2].at], 0.0);
        assert !InWindow(attempts[n - 2].at, attempts[n - 1].at);
        assert 0.0 <= attempts[n - 1].at by {
          SpacedOutIncreasing(attempts, n - 1);
        }
      }
      StaleHistoryForgotten(mid, attempts[n - 1].user, attempts[n - 1].at);
    }
  }

  lemma {:induction false} SpacedOutIncreasing(attempts: seq<Attempt>, i: nat)
    requires SpacedOut(attempts) && i < |attempts|
    ensures attempts[0].at <= attempts[i].at
  {
    if i > 0 {
      SpacedOutIncreasing(attempts, i - 1);
    }
  }

  /** Sends at non-decreasing times that all fit in one window. */
  predicate Burst(attempts: seq<Attempt>)
  {
    forall i, j :: 0 <= i < j < |attempts| ==>
      attempts[i].at <= attempts[j].at <= attempts[i].at + FAIL_WINDOW
  }

  /** In a burst, every send is within the window of the last. */
  lemma {:induction false} BurstInWindow(attempts: seq<Attempt>)
    requires Burst(attempts) && attempts != []
    ensures forall x :: x in Times(attempts) ==> InWindow(x, attempts[|attempts| - 1].at)
    ensures attempts[0].at <= attempts[|attempts| - 1].at
  {
    var n := |attempts|;
    var ts := Times(attempts);
    forall x | x in ts ensures InWindow(x, attempts[n - 1].at) {
      var k :| 0 <= k < |ts| && ts[k] == x;
      assert x == attempts[k].at;
    }
    if n > 1 {
      assert attempts[0].at <= attempts[n - 1].at;
    }
  }

  /** The times of a prefix are a prefix of the times. */
  lemma {:induction false} TimesPrefix(attempts: seq<Attempt>, n: nat)
    requires n <= |attempts|
    ensures Times(attempts[..n]) == Times(attempts)[..n]
  {
  }

  /** A noisy send against an unlocked record whose failures all count,
      with room for one more below the threshold. */
  lemma {:induction false} NoisyStepBelowLimit(fails: seq<Time>, user: string, current: Time)
    requires user != OPERATOR && 0.0 <= current && |fails| + 1 < FAIL_LIMIT
    requires forall x :: x in fails ==> InWindow(x, current)
    ensures Step(Record(fails, 0.0), user, current) == (Record(fails + [current], 0.0), Accepted(false))
  {
    PruneKeepsWindow(fails, current);
  }

  /** A noisy send against an unlocked record whose failures all count,
      reaching the threshold. */
  lemma {:induction false} NoisyStepAtLimit(fails: seq<Time>, user: string, current: Time)
    requires user != OPERATOR && 0.0 <= current && |fails| + 1 >= FAIL_LIMIT
    requires forall x :: x in fails ==> InWindow(x, current)
    ensures Step(Record(fails, 0.0), user, current) ==
      (Record(fails + [current], current + LOCK_DURATION as real), Locked(STATION_LOCKED, LOCK_DURATION))
  {
    PruneKeepsWindow(fails, current);
  }

  /** A burst stays a burst when cut short. */
  lemma {:induction false} BurstPrefix(attempts: seq<Attempt>, n: nat)
    requires Burst(attempts) && NoOperator(attempts) && n <= |attempts|
    ensures Burst(attempts[..n]) && NoOperator(attempts[..n])
  {
  }

  /** Up to FAIL_LIMIT - 1 noisy sends in one window from a new client are
      all accepted unprivileged, and every one of them is on record. */
  lemma {:induction false} BurstBelowLimit(attempts: seq<Attempt>)
    requires NoOperator(attempts) && Burst(attempts) && |attempts| < FAIL_LIMIT
    requires attempts != [] ==> 0.0 <= attempts[0].at
    ensures Run(FRESH, attempts).0 == Record(Times(attempts), 0.0)
    ensures forall i :: 0 <= i < |attempts| ==> Run(FRESH, attempts).1[i] == Accepted(false)
  {
    if attempts != [] {
      var n := |attempts|;
      var init := attempts[..n - 1];
      BurstPrefix(attempts, n - 1);
      BurstBelowLimit(init);
      var last := attempts[n - 1];
      BurstInWindow(attempts);
      TimesPrefix(attempts, n - 1);
      NoisyStepBelowLimit(Times(init), last.user, last.at);
      assert Times(init) + [last.at] == Times(attempts);
    }
  }

  /** The scenario of the threshold: FAIL_LIMIT noisy sends in one window
      from a new client get four unprivileged acceptances and then the
      station-locked refusal, and the client is locked for LOCK_DURATION
      seconds after the last of them. */
  lemma {:induction false} FiveNoisySendsLock(attempts: seq<Attempt>)
    requires NoOperator(attempts) && Burst(attempts) && |attempts| == FAIL_LIMIT
    requires 0.0 <= attempts[0].at
    ensures Run(FRESH, attempts).1 ==
      [Accepted(false), Accepted(false), Accepted(false), Accepted(false),
       Locked(STATION_LOCKED, LOCK_DURATION)]
    ensures Run(FRESH, attempts).0 == Record(Times(attempts), attempts[4].at + LOCK_DURATION as real)
  {
    var init := attempts[..4];
    var last := attempts[4];
    BurstPrefix(attempts, 4);
    BurstBelowLimit(init);
    var (mid, rs) := Run(FRESH, init);
    assert rs == [Accepted(false), Accepted(false), Accepted(false), Accepted(false)];
    BurstInWindow(attempts);
    TimesPrefix(attempts, 4);
    NoisyStepAtLimit(Times(init), last.user, last.at);
    assert attempts[..|attempts| - 1] == init;
    assert Run(FRESH, attempts) == (Step(mid, last.user, last.at).0, rs + [Step(mid, last.user, last.at).1]);
    assert Times(init) + [last.at] == Times(attempts);
  }

  /** After such a lock every further send, the operator's included, is
      refused until the lock expires, and the record no longer changes. */
  lemma {:induction false} LockedAfterFiveNoisySends(attempts: seq<Attempt>, later: seq<Attempt>)
    requires NoOperator(attempts) && Burst(attempts) && |attempts| == FAIL_LIMIT
    requires 0.0 <= attempts[0].at
    requires forall i :: 0 <= i < |later| ==> later[i].at < attempts[4].at + LOCK_DURATION as real
    ensures Run(FRESH, attempts + later).0 == Run(FRESH, attempts).0
    ensures forall i :: FAIL_LIMIT <= i < |attempts + later| ==>
      Run(FRESH, attempts + later).1[i].Locked? && Run(FRESH, attempts + later).1[i].message == COOLING_DOWN
  {
    FiveNoisySendsLock(attempts);
    RunConcat(FRESH, attempts, later);
    RunWhileLocked(Run(FRESH, attempts).0, later);
  }

  /** Sends at non-decreasing times keep a consistent record consistent, and
      every cooling-down refusal along the way asks the client to wait
      between 1 and LOCK_DURATION seconds. */
  lemma {:induction false} RunConsistent(st: Record, now: Time, attempts: seq<Attempt>)
    requires Consistent(st, now)
    requires forall i :: 0 <= i < |attempts| ==> now <= attempts[i].at
    requires forall i, j :: 0 <= i < j < |attempts| ==> attempts[i].at <= attempts[j].at
    ensures Consistent(Run(st, attempts).0, if attempts == [] then now else attempts[|attempts| - 1].at)
    ensures forall i :: 0 <= i < |attempts| && Run(st, attempts).1[i].Locked? ==>
      1 <= Run(st, attempts).1[i].retryAfter <= LOCK_DURATION
  {
    if attempts != [] {
      var n := |attempts|;
      var init := attempts[..n - 1];
      RunConsistent(st, now, init);
      var (mid, rs) := Run(st, init);
      var prev := if init == [] then now else init[n - 2].at;
      var last := attempts[n - 1];
      StepConsistent(mid, last.user, prev, last.at);
      if last.at < mid.lockUntil {
        RetryBounded(mid, last.user, prev, last.at);
      }
      var out := Run(st, attempts).1;
      assert out == rs + [Step(mid, last.user, last.at).1];
    }
  }
}
