# Relay station lockout — a Dafny model

The relay station is a small web service (`server.py`). A client sends
messages to it with `POST /api/send`. The service names each client by its
IP address: the first entry of `X-Forwarded-For` or the peer address. It
keeps one record per client in the attempt tracker. A record holds the
times of the client's recent failed sends and the moment its lock expires.

Each send runs these steps in order:

1. The lock check. While the client is locked, the send is refused with 429
   "Relay cooling down", together with the seconds left to wait.
2. The operator bypass. A send whose last `user` field strips to `operator` clears
   the record and is accepted as privileged.
3. Any other send prunes the failures older than the 60-second window.
4. It then records itself as a failure.
5. At 5 failures in the window, the client is locked for 30 seconds.

A separate endpoint, `GET /visions/eleven-only`, returns the secret only to
a request whose query's last `user` field strips to `operator`.

The model has five modules:

- `Wrappers`: `Option`.
- `Text`: Python's `str.strip()` and `split(sep)[0]`. Whitespace follows
  Python's `str.isspace`.
- `Request`: forms and queries as sequences of (key, value) pairs;
  `getlist`, `extract_last`, `client_ip`, `detect_operator`, and the
  gated vision endpoint.
- `Lockout`: the record and the response datatypes, and `prune_attempts`.
  `Step` is one send against one record, as a pure function. `Apply` is a
  send against the whole tracker. The `Tracker` class holds the tracker as
  a `map` field; its `Send` and `ApiSend` methods update it in place and
  are proved equal to `Apply`.
- `Scenarios`: runs of several sends. They cover the threshold scenario,
  lock persistence, spaced-out failures, and a consistency invariant that
  every reachable record keeps.

### Lock check before operator bypass

The source checks the lock (server.py:78) before it checks for the
operator (server.py:100). A locked client that sends `user=operator`
therefore gets the 429 cooling-down answer, and its record, lock included,
stays as it was. The model follows the code here (`Lockout.LockedSendRefused`, `Lockout.OperatorNeverLocks`,
`Scenarios.LockedAfterFiveNoisySends`).

## Model

| member | source | states |
|---|---|---|
| Text.TrimStart | server.py:32 | the result is a suffix of the input, everything dropped is whitespace, and the result does not start with whitespace |
| Text.TrimEnd | server.py:32 | the result is a prefix of the input, everything dropped is whitespace, and the result does not end with whitespace |
| Text.IsSpace | server.py:32 | Python's `str.isspace` for one character, the set `strip()` removes; it has no contract of its own and is used by the contracts of `Text.Strip`, `Text.TrimStart` and `Text.TrimEnd` |
| Text.Strip | server.py:32 | the result has no whitespace at either edge, and it is the slice of the input with only whitespace outside it |
| Text.StripUnique | server.py:32 | at most one string satisfies the strip contract, so `Strip`'s contract determines it |
| Text.StripNoEdgeSpace | server.py:32 | stripping a string without edge whitespace returns it unchanged |
| Text.StripPadded | server.py:38 | whitespace padding on both sides of a value is exactly what stripping removes |
| Text.StripIdempotent | server.py:32 | stripping twice is stripping once |
| Text.FirstField | server.py:32 | the result is a prefix of the input without the separator, and the separator (or the end of the input) comes right after it |
| Text.FirstFieldOfJoin | server.py:32 | a field without the separator, followed by the separator, is the first field whatever comes after it |
| Text.FirstFieldWhole | server.py:32 | a string without the separator is its own first field |
| Request.GetListEmpty | server.py:37-38 | `getlist` is empty exactly when no field has the key |
| Request.GetListLast | server.py:37-38 | the last value `getlist` returns is the value of the last field with that key |
| Request.GetList | server.py:37 | `getlist`: at most one value per field; the values themselves, in order, are stated by `Request.GetListConcat` and `Request.GetListSingle` |
| Request.GetListConcat | server.py:37 | `getlist` of two forms one after the other is the first's values followed by the second's, so values keep the order of their fields |
| Request.GetListSingle | server.py:37 | one field contributes its value exactly when it has the key; with `Request.GetListConcat` this determines `getlist` on every form |
| Request.ExtractLast | server.py:36-38 | the result is "" when the key is absent, and otherwise the stripped value of the last field with the key |
| Request.ExtractLastFound | server.py:36-38 | a non-empty result comes from the last field with the key |
| Request.LastIndexExists | server.py:37 | whenever some field has the key, one of those fields is the last |
| Request.ClientIp | server.py:29-33 | a non-empty `X-Forwarded-For` gives the stripped text before its first comma (never a comma); otherwise the peer address, or "unknown" when that is missing or empty |
| Request.ClientIpFromFirstEntry | server.py:31-32 | a clean first entry is the client key, whatever follows it and whatever the peer address is |
| Request.ClientIpFromSingleEntry | server.py:31-32 | a clean single-entry header is the client key |
| Request.DetectOperator | server.py:54-60 | the flag is set exactly when the last `user` field of the form (POST) or the query (other methods) strips to "operator" |
| Request.LastUserFieldWins | server.py:57-60 | appending a whitespace-padded `user=operator` to the form of a POST or the query of a GET sets the flag, whatever came before it |
| Request.NoUserFieldNoFlag | server.py:56-60 | when the source that is read (the form of a POST, the query otherwise) has no `user` field, the flag stays unset |
| Request.Visions | server.py:123-127 | 200 with the secret exactly when the query's extracted `user` is "operator"; otherwise 403 with the denial message |
| Lockout.Prune | server.py:41-42 | it never adds elements, every kept failure is in the window, and every failure in the window is kept |
| Lockout.PruneCount | server.py:42 | each failure time in the window occurs as often as before; none outside it remains |
| Lockout.PruneConcat | server.py:42 | pruning distributes over concatenation, so the kept failures stay in their original order |
| Lockout.PruneKeepsWindow | server.py:42 | a list whose failures are all in the window is left unchanged |
| Lockout.PruneIdempotent | server.py:41-42 | pruning twice at the same moment is pruning once |
| Lockout.PruneLater | server.py:41-42 | pruning at one moment and then at a later one equals pruning at the later one |
| Lockout.PruneDropsStale | server.py:42 | failures that are all older than the window are all dropped |
| Lockout.PruneSorted | server.py:42 | pruning a time-ordered list keeps it in time order |
| Lockout.RetryAfter | server.py:79-85 | `max(int(lock_until - current), 1)`: always at least 1; with a second or more left, the whole seconds left on the lock (the floor of the difference); under two seconds left, exactly 1 |
| Lockout.Step | server.py:77-120 | one send against one record, in the source's order: lock check, operator clear, prune, append, threshold; it has no contract of its own, and its meaning is stated by `Lockout.LockedSendRefused`, `Lockout.OperatorSendClears`, `Lockout.OperatorNeverLocks`, `Lockout.FailureRecorded`, `Lockout.ThresholdRule` and `Lockout.StepConsistent` |
| Lockout.LockedSendRefused | server.py:77-89 | while the lock holds, every send, an operator send included, is refused with 429, "locked", the cooling-down message and the delay `RetryAfter(lock_until, current)`, at least 1; the record is unchanged |
| Lockout.OperatorSendClears | server.py:100-103 | an operator send outside a lock leaves the record `{fails: [], lock_until: 0}` and is accepted, privileged, with 200 |
| Lockout.OperatorNeverLocks | server.py:78-103 | an operator send never sets or extends a lock and never records a failure; it is refused only as cooling down, and then nothing changes |
| Lockout.FailureRecorded | server.py:105-106 | a non-operator send outside a lock leaves the pruned old list followed by `current`; all of it is in the window; as a multiset it is the in-window old failures plus `current` |
| Lockout.ThresholdRule | server.py:107-120 | at 5 or more failures the lock expires 30 seconds from now and the answer is 429 station-locked with a delay of 30; below that the send is accepted unprivileged with 200 and the lock expiry is unchanged |
| Lockout.StaleHistoryForgotten | server.py:105-120 | a failure more than 60 seconds after every earlier one starts a new window of one and is accepted |
| Lockout.Consistent | server.py:76-120 | the invariant of every record reachable by sends at non-decreasing times: failures in time order and none in the future, the lock at most 30 seconds ahead, and a record at the threshold locked 30 seconds after its newest failure; preserved by `Lockout.StepConsistent` |
| Lockout.FreshConsistent | server.py:76 | a new record is consistent: time-ordered failures, none in the future, the lock at most 30 seconds ahead, and a record at the threshold locked 30 seconds after its newest failure |
| Lockout.FailureConsistent | server.py:105-120 | recording a failure keeps a record consistent |
| Lockout.StepConsistent | server.py:73-120 | every send at a time no earlier than the previous one keeps a record consistent |
| Lockout.RetryBounded | server.py:78-85 | in a consistent record, a cooling-down refusal asks for between 1 and 30 seconds |
| Lockout.Lookup | server.py:76 | `setdefault`: the client's record, or the fresh record `{fails: [], lock_until: 0}`; it has no contract of its own and is used by `Lockout.Apply` |
| Lockout.Apply | server.py:76-120 | a send against the whole tracker: `Lockout.Step` on the client's record, stored back under its key; its meaning is stated by `Lockout.ApplyTouchesOnlyClient`, `Lockout.ApplyCommutes` and the `Step` lemmas, and `Lockout.Tracker.Send` is proved equal to it |
| Lockout.ApplyTouchesOnlyClient | server.py:76 | a send adds its own client's key if it is new and leaves every other entry of the tracker unchanged |
| Lockout.ApplyCommutes | server.py:76 | sends from two different clients give the same tracker and the same responses in either order |
| Lockout.Tracker.constructor | server.py:22 | the tracker starts empty |
| Lockout.Tracker.PruneAttempts | server.py:41-42 | the client's failures are replaced by their pruned list, and nothing else changes |
| Lockout.Tracker.Send | server.py:73-120 | the new tracker and the response are those of `Apply`: the client's key is added if new, and every other entry is unchanged |
| Lockout.Tracker.ApiSend | server.py:73-92 | a send keyed by `client_ip` with the form's `extract_last("user")` has the effect of `Apply` on those values |
| Scenarios.Run | server.py:73-120 | a run of sends gives one response per send |
| Scenarios.Times | server.py:106 | the arrival times of the sends, in order |
| Scenarios.RunConcat | server.py:73-120 | running two batches of sends one after the other is running them together |
| Scenarios.RunWhileLocked | server.py:77-89 | sends during a lock, the operator's included, are all refused as cooling down with a positive delay, and the record does not change |
| Scenarios.RunSpacedOut | server.py:105-120 | failures more than 60 seconds apart never lock a new client; the record only ever holds the latest one |
| Scenarios.BurstInWindow | server.py:42 | in a burst every send falls within the window of the last one |
| Scenarios.NoisyStepBelowLimit | server.py:105-120 | below the threshold, a noisy send against an unlocked in-window record appends its time and is accepted |
| Scenarios.NoisyStepAtLimit | server.py:105-118 | at the threshold, a noisy send against an unlocked in-window record appends its time and locks for 30 seconds |
| Scenarios.BurstBelowLimit | server.py:105-120 | up to 4 noisy sends in one window from a new client are all accepted unprivileged and all on record |
| Scenarios.FiveNoisySendsLock | server.py:105-118 | 5 noisy sends in one window from a new client get four unprivileged acceptances, then the station-locked refusal; the lock expires 30 seconds after the fifth |
| Scenarios.LockedAfterFiveNoisySends | server.py:78-103 | after that lock, every further send before it expires is refused as cooling down, operator sends included, and the record does not change |
| Scenarios.RunConsistent | server.py:73-120 | sends at non-decreasing times keep a record consistent, and every cooling-down delay along the way is between 1 and 30 seconds |

## Left out

- Flask routing, the static files `index.html` and `client.js`, and `app.run` are framework plumbing (server.py:20, 63-70, 130-131).
- Logging is left out: `log_attempt`, the newline escaping of the raw body, and the `message` field, which is read only to be logged (server.py:15-18, 45-51, 91-98). None of them affects a response or the tracker.
- The secret is a parameter of `Request.Visions`. Its value, read from the `FLAG` environment variable with a default, is not modelled (server.py:10).
- The clock (`time.time()`, server.py:25-26) is the parameter `current`. Timestamps are exact reals, so float rounding in `current - ts` and `current + LOCK_DURATION` is not modelled, and `int(...)` of a positive difference is its floor.
- The tracker is shared between concurrent request threads without a lock (server.py:22). Sends are modelled as sequential calls.
- The request-scoped `g` and the multidict internals are not modelled. A form or query is a sequence of (key, value) pairs, and the header is its string value ("" when absent).
- The vision endpoint is modelled for GET requests only, so its operator flag is `detect_operator` on the query string (server.py:54-60, 123).
- Request.GetList: its own contract states only a length bound, which keeps each proof small; the list is determined by `Request.GetListConcat` and `Request.GetListSingle`.
- JSON serialisation of the responses: each is a datatype with its status code and fields.
