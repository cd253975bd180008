/** The per-client lockout behind `POST /api/send` (server.py). Each client
    key owns a record of recent failure timestamps and a lock expiry. A send
    is checked against the lock first, then an operator send clears the
    record, and any other send prunes the sliding window, records a failure
    and locks the client once the window holds FAIL_LIMIT failures.

    Timestamps are seconds as exact reals: Python's floats without their
    rounding. */
module Lockout {
  import opened Wrappers
  import opened Request

  const FAIL_LIMIT: nat := 5
  const FAIL_WINDOW: real := 60.0
  const LOCK_DURATION: int := 30
  const COOLING_DOWN := "Relay cooling down. Try later."
  const STATION_LOCKED := "Too many noisy attempts. Station locked."

  type Time = real

  /** One client's entry of the attempt tracker. */
  datatype Record = Record(fails: seq<Time>, lockUntil: Time)

  /** The entry `setdefault` creates for a client seen for the first time. */
  const FRESH := Record([], 0.0)

  /** The JSON body and status code of a send. */
  datatype SendResponse =
    | Accepted(privileged: bool)              // 200 {status: "ok", privileged}
    | Locked(message: string, retryAfter: int) // 429 {status: "locked", message, retry_after}
  {
    function Status(): string { if Accepted? then "ok" else "locked" }
    function Code(): int { if Accepted? then 200 else 429 }
  }

  /** The pruning test: a failure at `ts` still counts at `current`. */
  predicate InWindow(ts: Time, current: Time)
  {
    current - ts <= FAIL_WINDOW
  }

  /** `prune_attempts`: the failures that still count at `current`. */
  function Prune(fails: seq<Time>, current: Time): (kept: seq<Time>)
    ensures |kept| <= |fails|
    ensures forall x :: x in kept ==> InWindow(x, current)
    ensures forall k :: 0 <= k < |fails| && InWindow(fails[k], current) ==> fails[k] in kept
    ensures forall x :: x in kept ==> x in fails
  {
    if fails == [] then []
    else
      var rest := Prune(fails[1..], current);
      assert forall k :: 1 <= k < |fails| ==> fails[k] == fails[1..][k - 1];
      (if InWindow(fails[0], current) then [fails[0]] else []) + rest
  }

  /** Pruning keeps every occurrence of a failure in the window and none
      outside it. */
  lemma {:induction false} PruneCount(fails: seq<Time>, current: Time)
    ensures forall x ::
              multiset(Prune(fails, current))[x] == (if InWindow(x, current) then multiset(fails)[x] else 0)
  {
    if fails != [] {
      assert fails == [fails[0]] + fails[1..];
      PruneCount(fails[1..], current);
    }
  }

  /** Pruning distributes over concatenation: it keeps the surviving
      failures in their original order. */
  lemma {:induction false} PruneConcat(a: seq<Time>, b: seq<Time>, current: Time)
    ensures Prune(a + b, current) == Prune(a, current) + Prune(b, current)
  {
    if a != [] {
      assert (a + b)[0] == a[0] && (a + b)[1..] == a[1..] + b;
      PruneConcat(a[1..], b, current);
      var head := if InWindow(a[0], current) then [a[0]] else [];
      calc {
        Prune(a + b, current);
        head + Prune(a[1..] + b, current);
        head + (Prune(a[1..], current) + Prune(b, current));
        (head + Prune(a[1..], current)) + Prune(b, current);
        Prune(a, current) + Prune(b, current);
      }
    } else {
      assert a + b == b;
    }
  }

  /** A list whose failures all count is left as it is. */
  lemma {:induction false} PruneKeepsWindow(fails: seq<Time>, current: Time)
    requires forall x :: x in fails ==> InWindow(x, current)
    ensures Prune(fails, current) == fails
  {
    if fails != [] {
      PruneKeepsWindow(fails[1..], current);
    }
  }

  /** Pruning twice at the same moment is pruning once. */
  lemma {:induction false} PruneIdempotent(fails: seq<Time>, current: Time)
    ensures Prune(Prune(fails, current), current) == Prune(fails, current)
  {
    PruneKeepsWindow(Prune(fails, current), current);
  }

  /** Pruning at one moment and then at a later one is pruning at the later
      one: the window only moves forward. */
  lemma {:induction false} PruneLater(fails: seq<Time>, earlier: Time, later: Time)
    requires earlier <= later
    ensures Prune(Prune(fails, earlier), later) == Prune(fails, later)
  {
    if fails != [] {
      var head := if InWindow(fails[0], earlier) then [fails[0]] else [];
      PruneConcat(head, Prune(fails[1..], earlier), later);
      PruneLater(fails[1..], earlier, later);
    }
  }

  /** Failures all older than the window are all dropped. */
  lemma {:induction false} PruneDropsStale(fails: seq<Time>, current: Time)
    requires forall x :: x in fails ==> !InWindow(x, current)
    ensures Prune(fails, current) == []
  {
    if fails != [] {
      PruneDropsStale(fails[1..], current);
    }
  }

  /** `max(int(lock_until - current), 1)` while the client is locked; `int`
      of a positive float is its floor. */
  function RetryAfter(lockUntil: Time, current: Time): (secs: int)
    requires current < lockUntil
    ensures secs >= 1
    ensures 1.0 <= lockUntil - current ==> secs as real <= lockUntil - current < secs as real + 1.0
    ensures lockUntil - current < 2.0 ==> secs == 1
  {
    var retry := (lockUntil - current).Floor;
    if retry < 1 then 1 else retry
  }

  /** One send against one client's record: the new record and the
      response, following `api_send` step by step. */
  function Step(st: Record, user: string, current: Time): (Record, SendResponse)
  {
    if current < st.lockUntil then
      (st, Locked(COOLING_DOWN, RetryAfter(st.lockUntil, current)))
    else if user == OPERATOR then
      (Record([], 0.0), Accepted(true))
    else
      var fails := Prune(st.fails, current) + [current];
      if |fails| >= FAIL_LIMIT then
        (Record(fails, current + LOCK_DURATION as real), Locked(STATION_LOCKED, LOCK_DURATION))
      else
        (Record(fails, st.lockUntil), Accepted(false))
  }

  /** While the lock holds, every send (an operator send included) is
      refused with 429 and a positive retry delay, and the record stays as
      it was. */
  lemma {:induction false} LockedSendRefused(st: Record, user: string, current: Time)
    requires current < st.lockUntil
    ensures var (st', resp) := Step(st, user, current);
      st' == st && resp.Code() == 429 && resp.Status() == "locked" &&
      resp == Locked(COOLING_DOWN, RetryAfter(st.lockUntil, current)) && resp.retryAfter >= 1
  {
  }

  /** An operator send outside a lock empties the record and is privileged;
      it records no failure and cannot cause a lock. */
  lemma {:induction false} OperatorSendClears(st: Record, current: Time)
    requires st.lockUntil <= current
    ensures Step(st, OPERATOR, current) == (FRESH, Accepted(true))
    ensures Step(st, OPERATOR, current).1.Code() == 200
  {
  }

  /** Whatever the state, an operator send never sets or extends a lock:
      the expiry stays as it was or drops to 0. */
  lemma {:induction false} OperatorNeverLocks(st: Record, current: Time)
    ensures var (st', resp) := Step(st, OPERATOR, current);
      (st'.lockUntil == st.lockUntil || st'.lockUntil == 0.0) &&
      |st'.fails| <= |st.fails| &&
      (resp.Locked? ==> resp.message == COOLING_DOWN && st' == st)
  {
  }

  /** A non-operator send outside a lock records a failure: the new list is
      the pruned old list followed by `current`, and every failure in it is
      within the window of `current`. */
  lemma {:induction false} FailureRecorded(st: Record, user: string, current: Time)
    requires st.lockUntil <= current && user != OPERATOR
    ensures var (st', _) := Step(st, user, current);
      st'.fails == Prune(st.fails, current) + [current] &&
      (forall x :: x in st'.fails ==> InWindow(x, current)) &&
      forall x :: multiset(st'.fails)[x] ==
        (if InWindow(x, current) then multiset(st.fails)[x] else 0) + (if x == current then 1 else 0)
  {
    var kept := Prune(st.fails, current);
    var fails := kept + [current];
    assert forall x :: x in fails ==> x in kept || x == current;
    PruneCount(st.fails, current);
    assert multiset(fails) == multiset(kept) + multiset{current};
  }

  /** The threshold rule: at FAIL_LIMIT failures in the window the client is
      locked for LOCK_DURATION seconds and told so with 429; below it the
      send is accepted unprivileged and the lock expiry is left alone. */
  lemma {:induction false} ThresholdRule(st: Record, user: string, current: Time)
    requires st.lockUntil <= current && user != OPERATOR
    ensures var (st', resp) := Step(st, user, current);
      (|st'.fails| >= FAIL_LIMIT ==>
        st'.lockUntil == current + LOCK_DURATION as real &&
        resp == Locked(STATION_LOCKED, LOCK_DURATION) && resp.Code() == 429) &&
      (|st'.fails| < FAIL_LIMIT ==>
        st'.lockUntil == st.lockUntil && resp == Accepted(false) && resp.Code() == 200)
  {
  }

  /** A failure that comes more than FAIL_WINDOW after every earlier one
      starts a new window of one and is accepted. */
  lemma {:induction false} StaleHistoryForgotten(st: Record, user: string, current: Time)
    requires st.lockUntil <= current && user != OPERATOR
    requires forall x :: x in st.fails ==> !InWindow(x, current)
    ensures Step(st, user, current) == (Record([current], st.lockUntil), Accepted(false))
  {
    PruneDropsStale(st.fails, current);
    assert Prune(st.fails, current) + [current] == [current];
  }

  /** Non-decreasing failure times. */
  predicate Sorted(s: seq<Time>)
  {
    forall i, j :: 0 <= i < j < |s| ==> s[i] <= s[j]
  }

  /** Pruning a sorted list leaves it sorted. */
  lemma {:induction false} PruneSorted(fails: seq<Time>, current: Time)
    requires Sorted(fails)
    ensures Sorted(Prune(fails, current))
  {
    if fails != [] {
      var tail := fails[1..];
      var rest := Prune(tail, current);
      PruneSorted(tail, current);
      assert forall x :: x in tail ==> fails[0] <= x by {
        forall x | x in tail ensures fails[0] <= x {
          var k :| 0 <= k < |tail| && tail[k] == x;
          assert fails[k + 1] == x;
        }
      }
      var r := Prune(fails, current);
      if InWindow(fails[0], current) {
        assert r == [fails[0]] + rest;
        forall i, j | 0 <= i < j < |r| ensures r[i] <= r[j] {
          if i == 0 {
            assert r[j] == rest[j - 1] && rest[j - 1] in rest;
          } else {
            assert r[i] == rest[i - 1] && r[j] == rest[j - 1];
          }
        }
      }
    }
  }

  /** What every record reachable through sends at non-decreasing times
      `now >= 0` satisfies: failures are in time order and none is in the
      future; a lock expires at most LOCK_DURATION after the last send; and a
      record at the threshold is locked for LOCK_DURATION after its newest
      failure. */
  ghost predicate Consistent(st: Record, now: Time)
  {
    0.0 <= now &&
    Sorted(st.fails) &&
    (forall x :: x in st.fails ==> x <= now) &&
    0.0 <= st.lockUntil <= now + LOCK_DURATION as real &&
    (|st.fails| >= FAIL_LIMIT ==> st.lockUntil == st.fails[|st.fails| - 1] + LOCK_DURATION as real)
  }

  lemma {:induction false} FreshConsistent(now: Time)
    requires 0.0 <= now
    ensures Consistent(FRESH, now)
  {
  }

  lemma {:induction false} SortedAppend(s: seq<Time>, t: Time)
    requires Sorted(s) && forall x :: x in s ==> x <= t
    ensures Sorted(s + [t])
  {
    var u := s + [t];
    forall i, j | 0 <= i < j < |u| ensures u[i] <= u[j] {
      if j == |s| {
        assert u[i] in s;
      } else {
        assert u[i] == s[i] && u[j] == s[j];
      }
    }
  }

  /** A recorded failure keeps the record consistent. */
  lemma {:induction false} FailureConsistent(st: Record, user: string, now: Time, current: Time)
    requires Consistent(st, now) && now <= current
    requires st.lockUntil <= current && user != OPERATOR
    ensures Consistent(Step(st, user, current).0, current)
  {
    var kept := Prune(st.fails, current);
    PruneSorted(st.fails, current);
    SortedAppend(kept, current);
    var fails := kept + [current];
    assert forall x :: x in fails ==> x in kept || x == current;
    assert fails[|fails| - 1] == current;
  }

  /** Every send at a time no earlier than the previous one keeps the record
      consistent. */
  lemma {:induction false} StepConsistent(st: Record, user: string, now: Time, current: Time)
    requires Consistent(st, now) && now <= current
    ensures Consistent(Step(st, user, current).0, current)
  {
    if st.lockUntil <= current && user != OPERATOR {
      FailureConsistent(st, user, now, current);
    }
  }

  /** In a consistent record a lock never asks for more than LOCK_DURATION
      seconds of patience. */
  lemma {:induction false} RetryBounded(st: Record, user: string, now: Time, current: Time)
    requires Consistent(st, now) && now <= current < st.lockUntil
    ensures 1 <= Step(st, user, current).1.retryAfter <= LOCK_DURATION
  {
  }

  /** `setdefault`: a client's record, or a fresh one. */
  function Lookup(tracker: map<string, Record>, client: string): Record
  {
    if client in tracker then tracker[client] else FRESH
  }

  /** A send from `client` against the whole tracker. */
  function Apply(tracker: map<string, Record>, client: string, user: string, current: Time)
    : (map<string, Record>, SendResponse)
  {
    var (st, resp) := Step(Lookup(tracker, client), user, current);
    (tracker[client := st], resp)
  }

  /** A send touches only its own client's entry, creating it if need be. */
  lemma {:induction false} ApplyTouchesOnlyClient(tracker: map<string, Record>, client: string, user: string, current: Time)
    ensures var (t', _) := Apply(tracker, client, user, current);
      t'.Keys == tracker.Keys + {client} &&
      forall k :: k in tracker && k != client ==> t'[k] == tracker[k]
  {
  }

  /** Sends from two different clients do not interfere: in either order
      they leave the same tracker and get the same responses. */
  lemma {:induction false} ApplyCommutes(tracker: map<string, Record>, c1: string, u1: string, t1: Time,
                      c2: string, u2: string, t2: Time)
    requires c1 != c2
    ensures var (a, r1) := Apply(tracker, c1, u1, t1);
            var (ab, r2) := Apply(a, c2, u2, t2);
            var (b, r2') := Apply(tracker, c2, u2, t2);
            var (ba, r1') := Apply(b, c1, u1, t1);
            ab == ba && r1 == r1' && r2 == r2'
  {
    var (a, r1) := Apply(tracker, c1, u1, t1);
    var (b, r2') := Apply(tracker, c2, u2, t2);
    assert Lookup(a, c2) == Lookup(tracker, c2);
    assert Lookup(b, c1) == Lookup(tracker, c1);
  }

  /** The attempt tracker: one record per client key, updated in place by
      each send. */
  class Tracker {
    var records: map<string, Record>

    constructor ()
      ensures records == map[]
    {
      records := map[];
    }

    /** `prune_attempts(state, current)` on the record of `client`. */
    method PruneAttempts(client: string, current: Time)
      requires client in records
      modifies this
      ensures records == old(records)[client := old(records)[client].(fails := Prune(old(records)[client].fails, current))]
    {
      var state := records[client];
      records := records[client := state.(fails := Prune(state.fails, current))];
    }

    /** `api_send` for the client key `client` and the form field `user`
        at time `current`. */
    method Send(client: string, user: string, current: Time) returns (resp: SendResponse)
      modifies this
      ensures (records, resp) == Apply(old(records), client, user, current)
      ensures records.Keys == old(records).Keys + {client}
      ensures forall k :: k in old(records) && k != client ==> records[k] == old(records)[k]
    {
      if client !in records {
        records := records[client := Record([], 0.0)];
      }
      ghost var st0 := Lookup(old(records), client);
      var state := records[client];
      if current < state.lockUntil {
        resp := Locked(COOLING_DOWN, RetryAfter(state.lockUntil, current));
        assert records == old(records)[client := state];
        return;
      }
      if user == OPERATOR {
        records := records[client := state.(fails := [])];
        records := records[client := records[client].(lockUntil := 0.0)];
        resp := Accepted(true);
        assert records == old(records)[client := Record([], 0.0)];
        return;
      }
      PruneAttempts(client, current);
      state := records[client];
      records := records[client := state.(fails := state.fails + [current])];
      if |records[client].fails| >= FAIL_LIMIT {
        records := records[client := records[client].(lockUntil := current + LOCK_DURATION as real)];
        resp := Locked(STATION_LOCKED, LOCK_DURATION);
        assert records == old(records)[client := Record(Prune(st0.fails, current) + [current], current + LOCK_DURATION as real)];
        return;
      }
      resp := Accepted(false);
      assert records == old(records)[client := Record(Prune(st0.fails, current) + [current], st0.lockUntil)];
    }

    /** The whole of `POST /api/send`: the client key from the
        `X-Forwarded-For` value and the peer address, the last `user` field
        of the form, then the send at time `current`. */
    method ApiSend(forwarded: string, remoteAddr: Option<string>, form: Fields, current: Time)
      returns (resp: SendResponse)
      modifies this
      ensures (records, resp) ==
        Apply(old(records), ClientIp(forwarded, remoteAddr), ExtractLast(form, "user"), current)
    {
      var ip := ClientIp(forwarded, remoteAddr);
      var user := ExtractLast(form, "user");
      resp := Send(ip, user, current);
    }
  }
}
