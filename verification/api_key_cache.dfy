/**
 Validation of API keys through the Redis cache (src/services/api_key.rs, src/types/api_key.rs):
 requests of many instances read the cache or the database, check the clock and fill the cache,
 while keys are created, expire and are deleted.
 */
module ApiKeyCache {
  import opened Prelude

  type Hash = string

  /** API_KEY_CACHE_TTL_SECS; times are in milliseconds. */
  const TTL: nat := 300_000

  const PREFIX: string := "nadfun_"
  const RANDOM_LENGTH: nat := 32

  datatype Info = Info(id: nat, keyHash: Hash, expiresAt: Option<nat>)
  datatype Row = Row(info: Info, owner: Option<string>, active: bool)

  /** A cache entry; `readAt` records when its content was read from the database. */
  datatype Cached = Cached(info: Info, readAt: nat, storedAt: nat)

  datatype AuthError = Unauthorized | Internal

  /** One call of `validate_api_key`, between the commands it sends. */
  datatype Validator =
    | Started(hash: Hash)
    | Got(hash: Hash, info: Info, readAt: nat, gotAt: nat)
    | Missed(hash: Hash)
    | Fetched(hash: Hash, row: Row, readAt: nat)
    | Checked(hash: Hash, info: Info, readAt: nat, checkedAt: nat)
    | Accepted(hash: Hash, info: Info, readAt: nat, checkedAt: nat, at: nat, hit: bool)
    | Rejected(hash: Hash, error: AuthError)

  datatype Read = Read(row: Row, at: nat)

  /** `fetched`, `born` and `deleted` are history: what the database returned, and each key's life. */
  datatype State = State(
    now: nat, rows: map<Hash, Row>, cache: map<Hash, Cached>, validators: seq<Validator>,
    fetched: set<Read>, born: set<Hash>, deleted: map<Hash, nat>)

  const INIT: State := State(0, map[], map[], [], {}, {}, map[])

  /** Upper bounds on the time from the database read to SETEX, and from GET to the clock check. */
  datatype Delays = Delays(toStore: nat, toCheck: nat)

  datatype Step =
    | Tick(d: nat)
    | Create(h: Hash, id: nat, owner: Option<string>, expiresAt: Option<nat>)
    | Deactivate(h: Hash)
    | DeleteRow(h: Hash)
    | DropCache(h: Hash)                  // DEL, an eviction, or a flush at start-up
    | Start(h: Hash)
    | Get(v: nat, answered: bool)         // a Redis or decoding error counts as a miss
    | Check(v: nat)                       // the clock check after a hit
    | Fetch(v: nat, answered: bool)
    | Validate(v: nat)                    // `is_valid`
    | Store(v: nat, stored: bool)         // SETEX, its error ignored; the key is accepted

  predicate Unexpired(info: Info, t: nat) { info.expiresAt.Some? ==> t < info.expiresAt.value }

  predicate IsValid(row: Row, t: nat) { row.active && Unexpired(row.info, t) }

  predicate Live(entry: Cached, t: nat) { t < entry.storedAt + TTL }

  predicate Enabled(d: Delays, s: State, step: Step) {
    match step
    case Create(h, _, _, _) => h !in s.born
    case Deactivate(h) => h in s.rows
    case DeleteRow(h) => h in s.rows
    case Get(v, _) => v < |s.validators| && s.validators[v].Started?
    case Check(v) => v < |s.validators| && s.validators[v].Got? && s.now <= s.validators[v].gotAt + d.toCheck
    case Fetch(v, _) => v < |s.validators| && s.validators[v].Missed?
    case Validate(v) => v < |s.validators| && s.validators[v].Fetched? && s.now <= s.validators[v].readAt + d.toStore
    case Store(v, _) => v < |s.validators| && s.validators[v].Checked? && s.now <= s.validators[v].readAt + d.toStore
    case _ => true
  }

  function AfterGet(s: State, h: Hash, answered: bool): Validator {
    if answered && h in s.cache && Live(s.cache[h], s.now)
    then Got(h, s.cache[h].info, s.cache[h].readAt, s.now) else Missed(h)
  }

  function AfterCheck(val: Validator, now: nat): Validator
    requires val.Got?
  {
    if Unexpired(val.info, now) then Accepted(val.hash, val.info, val.readAt, now, now, true)
    else Rejected(val.hash, Unauthorized)
  }

  function AfterFetch(s: State, h: Hash, answered: bool): Validator {
    if !answered then Rejected(h, Internal)
    else if h in s.rows then Fetched(h, s.rows[h], s.now)
    else Rejected(h, Unauthorized)
  }

  function AfterValidate(val: Validator, now: nat): Validator
    requires val.Fetched?
  {
    if IsValid(val.row, now) then Checked(val.hash, val.row.info, val.readAt, now)
    else Rejected(val.hash, Unauthorized)
  }

  function Apply(d: Delays, s: State, step: Step): State
    requires Enabled(d, s, step)
  {
    match step
    case Tick(t) => s.(now := s.now + t)
    case Create(h, id, owner, expiresAt) =>
      s.(rows := s.rows[h := Row(Info(id, h, expiresAt), owner, true)], born := s.born + {h})
    case Deactivate(h) => s.(rows := s.rows[h := s.rows[h].(active := false)])
    case DeleteRow(h) => s.(rows := s.rows - {h}, deleted := s.deleted[h := s.now])
    case DropCache(h) => s.(cache := s.cache - {h})
    case Start(h) => s.(validators := s.validators + [Started(h)])
    case Get(v, answered) => s.(validators := s.validators[v := AfterGet(s, s.validators[v].hash, answered)])
    case Check(v) => s.(validators := s.validators[v := AfterCheck(s.validators[v], s.now)])
    case Fetch(v, answered) =>
      var val := AfterFetch(s, s.validators[v].hash, answered);
      s.(validators := s.validators[v := val],
         fetched := if val.Fetched? then s.fetched + {Read(val.row, s.now)} else s.fetched)
    case Validate(v) => s.(validators := s.validators[v := AfterValidate(s.validators[v], s.now)])
    case Store(v, stored) =>
      var Checked(h, info, readAt, checkedAt) := s.validators[v];
      s.(validators := s.validators[v := Accepted(h, info, readAt, checkedAt, s.now, false)],
         cache := if stored then s.cache[h := Cached(info, readAt, s.now)] else s.cache)
  }

  function Next(d: Delays, s: State, step: Step): State { if Enabled(d, s, step) then Apply(d, s, step) else s }

  /** Runs: steps that are not enabled change nothing. */
  function Run(d: Delays, s: State, steps: seq<Step>): State
    decreases |steps|
  {
    if steps == [] then s else Run(d, Next(d, s, steps[0]), steps[1..])
  }

  // ----- Invariant -----

  /** The database returned this key as active, at a time at which it had not expired. */
  ghost predicate Known(fetched: set<Read>, info: Info, at: nat) {
    exists owner :: Read(Row(info, owner, true), at) in fetched && Unexpired(info, at)
  }

  ghost predicate ValidatorInv(d: Delays, fetched: set<Read>, now: nat, val: Validator) {
    match val
    case Got(h, info, readAt, gotAt) =>
      info.keyHash == h && Known(fetched, info, readAt) && readAt <= gotAt <= now && gotAt < readAt + d.toStore + TTL
    case Fetched(h, row, readAt) => row.info.keyHash == h && Read(row, readAt) in fetched && readAt <= now
    case Checked(h, info, readAt, checkedAt) =>
      info.keyHash == h && Known(fetched, info, readAt) && Unexpired(info, checkedAt) && readAt <= checkedAt <= now
    case Accepted(h, info, readAt, checkedAt, at, hit) =>
      && info.keyHash == h && Known(fetched, info, readAt) && Unexpired(info, checkedAt) && (hit ==> at == checkedAt)
      && readAt <= checkedAt <= at <= now && at <= checkedAt + d.toStore && at < readAt + TTL + d.toStore + d.toCheck
    case _ => true
  }

  ghost predicate CacheInv(d: Delays, fetched: set<Read>, now: nat, h: Hash, entry: Cached) {
    && entry.info.keyHash == h && Known(fetched, entry.info, entry.readAt)
    && entry.readAt <= entry.storedAt <= entry.readAt + d.toStore && entry.storedAt <= now
  }

  ghost predicate LifeInv(s: State) {
    && (forall h :: h in s.rows ==> s.rows[h].info.keyHash == h && h in s.born && h !in s.deleted)
    && (forall h :: h in s.deleted ==> h in s.born && s.deleted[h] <= s.now)
    && (forall r :: r in s.fetched ==> r.at <= s.now && r.row.info.keyHash in s.born)
    && (forall r :: r in s.fetched && r.row.info.keyHash in s.deleted ==> r.at <= s.deleted[r.row.info.keyHash])
  }

  ghost predicate Inv(d: Delays, s: State) {
    && (forall v :: 0 <= v < |s.validators| ==> ValidatorInv(d, s.fetched, s.now, s.validators[v]))
    && (forall h :: h in s.cache ==> CacheInv(d, s.fetched, s.now, h, s.cache[h]))
    && LifeInv(s)
  }

  lemma StepGrows(d: Delays, s: State, step: Step)
    requires Enabled(d, s, step)
    ensures var t := Apply(d, s, step);
            s.now <= t.now && s.fetched <= t.fetched && s.born <= t.born && |s.validators| <= |t.validators|
  {
  }

  lemma ValidatorInvGrows(d: Delays, fetched: set<Read>, now: nat, fetched': set<Read>, now': nat, val: Validator)
    requires ValidatorInv(d, fetched, now, val) && fetched <= fetched' && now <= now'
    ensures ValidatorInv(d, fetched', now', val)
  {
  }

  lemma StepKeepsLife(d: Delays, s: State, step: Step)
    requires LifeInv(s) && Enabled(d, s, step)
    ensures LifeInv(Apply(d, s, step))
  {
  }

  /** The validator a step moves, or starts. */
  function Moved(s: State, step: Step): Option<nat> {
    match step
    case Start(_) => Some(|s.validators|)
    case Get(v, _) => Some(v)
    case Check(v) => Some(v)
    case Fetch(v, _) => Some(v)
    case Validate(v) => Some(v)
    case Store(v, _) => Some(v)
    case _ => None
  }

  lemma MovedValidator(d: Delays, s: State, step: Step)
    requires Inv(d, s) && Enabled(d, s, step) && Moved(s, step).Some?
    ensures var t := Apply(d, s, step);
            ValidatorInv(d, t.fetched, t.now, t.validators[Moved(s, step).value])
  {
    if !step.Start? {
      assert ValidatorInv(d, s.fetched, s.now, s.validators[step.v]);
    }
  }

  lemma OthersStay(d: Delays, s: State, step: Step, v: nat)
    requires Enabled(d, s, step) && v < |Apply(d, s, step).validators| && Moved(s, step) != Some(v)
    ensures v < |s.validators| && Apply(d, s, step).validators[v] == s.validators[v]
  {
  }

  lemma CacheStays(d: Delays, s: State, step: Step, h: Hash)
    requires Inv(d, s) && Enabled(d, s, step) && h in Apply(d, s, step).cache
    ensures var t := Apply(d, s, step); CacheInv(d, t.fetched, t.now, h, t.cache[h])
  {
    if step.Store? {
      assert ValidatorInv(d, s.fetched, s.now, s.validators[step.v]);
    }
  }

  lemma StepKeepsInv(d: Delays, s: State, step: Step)
    requires Inv(d, s) && Enabled(d, s, step)
    ensures Inv(d, Apply(d, s, step))
  {
    hide ValidatorInv, CacheInv, Apply, Enabled, Moved;
    var t := Apply(d, s, step);
    StepGrows(d, s, step);
    StepKeepsLife(d, s, step);
    forall v | 0 <= v < |t.validators| ensures ValidatorInv(d, t.fetched, t.now, t.validators[v]) {
      if Moved(s, step) == Some(v) {
        MovedValidator(d, s, step);
      } else {
        OthersStay(d, s, step, v);
        ValidatorInvGrows(d, s.fetched, s.now, t.fetched, t.now, s.validators[v]);
      }
    }
    forall h | h in t.cache ensures CacheInv(d, t.fetched, t.now, h, t.cache[h]) {
      CacheStays(d, s, step, h);
    }
  }

  lemma {:induction false} RunKeepsInv(d: Delays, s: State, steps: seq<Step>)
    requires Inv(d, s)
    ensures Inv(d, Run(d, s, steps))
    decreases |steps|
  {
    if steps == [] {
    } else {
      if Enabled(d, s, steps[0]) {
        StepKeepsInv(d, s, steps[0]);
      }
      RunKeepsInv(d, Next(d, s, steps[0]), steps[1..]);
    }
  }

  lemma RunSnoc(d: Delays, steps: seq<Step>)
    requires steps != []
    ensures var last := |steps| - 1; Run(d, INIT, steps) == Next(d, Run(d, INIT, steps[..last]), steps[last])
  {
    hide Next;
    var last := |steps| - 1;
    assert steps == steps[..last] + ([steps[last]] + []);
    RunConcat(d, INIT, steps[..last], [steps[last]] + []);
    RunCons(d, Run(d, INIT, steps[..last]), steps[last], []);
  }

  /** After some part of the run the clock showed `at` and the database held `row` under its hash. */
  ghost predicate WasRow(d: Delays, steps: seq<Step>, row: Row, at: nat) {
    exists i :: 0 <= i <= |steps| && var s := Run(d, INIT, steps[..i]);
                s.now == at && row.info.keyHash in s.rows && s.rows[row.info.keyHash] == row
  }

  lemma FetchedStep(d: Delays, s: State, step: Step, r: Read)
    requires LifeInv(s) && r in Next(d, s, step).fetched && r !in s.fetched
    ensures s.now == r.at && r.row.info.keyHash in s.rows && s.rows[r.row.info.keyHash] == r.row
  {
  }

  lemma {:induction false} FetchedWasRow(d: Delays, steps: seq<Step>, r: Read)
    requires r in Run(d, INIT, steps).fetched
    ensures WasRow(d, steps, r.row, r.at)
    decreases |steps|
  {
    hide Run, Next, LifeInv;
    if steps == [] {
      RunNone(d, INIT);
    } else {
      var last := |steps| - 1;
      var before, s := steps[..last], Run(d, INIT, steps[..last]);
      RunSnoc(d, steps);
      if r in s.fetched {
        FetchedWasRow(d, before, r);
        var i :| 0 <= i <= last && var p := Run(d, INIT, before[..i]);
                 p.now == r.at && r.row.info.keyHash in p.rows && p.rows[r.row.info.keyHash] == r.row;
        assert before[..i] == steps[..i];
      } else {
        RunKeepsInv(d, INIT, before);
        FetchedStep(d, s, steps[last], r);
      }
    }
  }

  lemma RunNone(d: Delays, s: State)
    ensures Run(d, s, []) == s
  {
  }

  lemma {:induction false} DeletionIsKept(d: Delays, s: State, steps: seq<Step>, h: Hash)
    requires Inv(d, s) && h in s.deleted
    ensures h in Run(d, s, steps).deleted && Run(d, s, steps).deleted[h] == s.deleted[h]
    decreases |steps|
  {
    hide ValidatorInv, CacheInv;
    if steps == [] {
    } else {
      if Enabled(d, s, steps[0]) {
        StepKeepsInv(d, s, steps[0]);
      }
      DeletionIsKept(d, Next(d, s, steps[0]), steps[1..], h);
    }
  }

  /** Step `i` of the run deletes the row of the key. */
  predicate DeletesAt(d: Delays, steps: seq<Step>, i: nat, h: Hash) {
    i < |steps| && steps[i] == DeleteRow(h) && h in Run(d, INIT, steps[..i]).rows
  }

  lemma DeletedAt(d: Delays, steps: seq<Step>, i: nat, h: Hash)
    requires DeletesAt(d, steps, i, h)
    ensures var s := Run(d, INIT, steps); h in s.deleted && s.deleted[h] == Run(d, INIT, steps[..i]).now
  {
    hide Run, Inv;
    var s := Run(d, INIT, steps[..i]);
    assert steps == steps[..i] + ([steps[i]] + steps[i + 1..]);
    RunConcat(d, INIT, steps[..i], [steps[i]] + steps[i + 1..]);
    RunCons(d, s, steps[i], steps[i + 1..]);
    RunKeepsInv(d, INIT, steps[..i]);
    StepKeepsInv(d, s, steps[i]);
    DeletionIsKept(d, Next(d, s, steps[i]), steps[i + 1..], h);
  }

  /**
   Main result. Over every run, a key is accepted only with its own hash, only if some earlier state of
   the run, less than 300 s plus the in-flight delays before, had its row active and not yet expired, and
   not at all from that long after its deletion. A cache hit is never accepted at or after the expiry;
   after a miss the check came before the expiry, and only the cache write may outlive it.
   */
  lemma RevocationLagIsBounded(d: Delays, steps: seq<Step>, v: nat)
    requires v < |Run(d, INIT, steps).validators| && Run(d, INIT, steps).validators[v].Accepted?
    ensures var Accepted(h, info, readAt, checkedAt, at, hit) := Run(d, INIT, steps).validators[v];
      && info.keyHash == h && (exists owner :: WasRow(d, steps, Row(info, owner, true), readAt))
      && readAt <= checkedAt <= at <= checkedAt + d.toStore && at < readAt + 300_000 + d.toStore + d.toCheck
      && (info.expiresAt.Some? ==>
            checkedAt < info.expiresAt.value && at < info.expiresAt.value + if hit then 0 else d.toStore)
      && (forall i: nat :: i < |steps| && DeletesAt(d, steps, i, h) ==>
                             at < Run(d, INIT, steps[..i]).now + 300_000 + d.toStore + d.toCheck)
  {
    hide Run, DeletesAt, WasRow;
    RunKeepsInv(d, INIT, steps);
    var s := Run(d, INIT, steps);
    assert ValidatorInv(d, s.fetched, s.now, s.validators[v]);
    var Accepted(h, info, readAt, checkedAt, at, hit) := s.validators[v];
    var owner :| Read(Row(info, owner, true), readAt) in s.fetched;
    FetchedWasRow(d, steps, Read(Row(info, owner, true), readAt));
    forall i: nat | i < |steps| && DeletesAt(d, steps, i, h)
      ensures at < Run(d, INIT, steps[..i]).now + 300_000 + d.toStore + d.toCheck
    {
      DeletedAt(d, steps, i, h);
    }
  }

  ghost predicate NeverAfterExpiry(d: Delays) {
    forall steps, v: nat :: var s := Run(d, INIT, steps);
      v < |s.validators| && s.validators[v].Accepted? ==> Unexpired(s.validators[v].info, s.validators[v].at)
  }

  // ----- When a key is gone for good -----

  /** A call that will accept the key if it moves on now. */
  predicate Holds(d: Delays, val: Validator, now: nat) {
    match val
    case Got(_, info, _, gotAt) => now <= gotAt + d.toCheck && Unexpired(info, now)
    case Fetched(_, row, readAt) => now <= readAt + d.toStore && IsValid(row, now)
    case Checked(_, _, readAt, _) => now <= readAt + d.toStore
    case _ => false
  }

  /** No valid row, no usable cache entry, and no call that already holds the key. */
  ghost predicate Gone(d: Delays, s: State, h: Hash) {
    && h in s.born
    && (h in s.rows ==> !IsValid(s.rows[h], s.now))
    && (h in s.cache ==> !(Live(s.cache[h], s.now) && Unexpired(s.cache[h].info, s.now)))
    && (forall v :: 0 <= v < |s.validators| && s.validators[v].hash == h ==> !Holds(d, s.validators[v], s.now))
  }

  predicate AcceptedAt(s: State, v: nat, h: Hash) {
    v < |s.validators| && s.validators[v].Accepted? && s.validators[v].hash == h
  }

  ghost predicate NewlyAccepted(s: State, t: State, h: Hash) {
    exists v: nat :: AcceptedAt(t, v, h) && !AcceptedAt(s, v, h)
  }

  lemma GoneMoved(d: Delays, s: State, step: Step, h: Hash)
    requires Gone(d, s, h) && Enabled(d, s, step) && Moved(s, step).Some?
    ensures var t, v := Apply(d, s, step), Moved(s, step).value;
            t.validators[v].hash == h ==>
              !Holds(d, t.validators[v], t.now) && (AcceptedAt(t, v, h) ==> AcceptedAt(s, v, h))
  {
    if !step.Start? && s.validators[step.v].hash == h {
      assert !Holds(d, s.validators[step.v], s.now);
    }
  }

  lemma GoneStep(d: Delays, s: State, step: Step, h: Hash)
    requires Gone(d, s, h) && Enabled(d, s, step)
    ensures Gone(d, Apply(d, s, step), h) && !NewlyAccepted(s, Apply(d, s, step), h)
  {
    var t := Apply(d, s, step);
    GoneStores(d, s, step, h);
    hide Apply, Enabled, Moved;
    forall v: nat | v < |t.validators| && t.validators[v].hash == h
      ensures !Holds(d, t.validators[v], t.now) && (AcceptedAt(t, v, h) ==> AcceptedAt(s, v, h))
    {
      if Moved(s, step) == Some(v) {
        GoneMoved(d, s, step, h);
      } else {
        OthersStay(d, s, step, v);
        StepGrows(d, s, step);
        assert !Holds(d, s.validators[v], s.now);
      }
    }
  }

  lemma GoneStores(d: Delays, s: State, step: Step, h: Hash)
    requires Gone(d, s, h) && Enabled(d, s, step)
    ensures var t := Apply(d, s, step);
      && h in t.born
      && (h in t.rows ==> !IsValid(t.rows[h], t.now))
      && (h in t.cache ==> !(Live(t.cache[h], t.now) && Unexpired(t.cache[h].info, t.now)))
  {
    if step.Store? {
      assert s.validators[step.v].hash == h ==> !Holds(d, s.validators[step.v], s.now);
    }
  }

  lemma {:induction false} GoneForGood(d: Delays, s: State, steps: seq<Step>, h: Hash)
    requires Gone(d, s, h)
    ensures Gone(d, Run(d, s, steps), h) && !NewlyAccepted(s, Run(d, s, steps), h)
    decreases |steps|
  {
    hide Gone, Apply, Enabled;
    if steps == [] {
    } else {
      var t := Next(d, s, steps[0]);
      if Enabled(d, s, steps[0]) {
        GoneStep(d, s, steps[0], h);
      }
      GoneForGood(d, t, steps[1..], h);
      var u := Run(d, s, steps);
      forall v: nat | AcceptedAt(u, v, h) ensures AcceptedAt(s, v, h) {
        assert AcceptedAt(t, v, h);
      }
    }
  }

  ghost predicate CanStillBeAccepted(d: Delays, s: State, h: Hash) {
    exists steps: seq<Step> :: NewlyAccepted(s, Run(d, s, steps), h)
  }

  lemma RunCons(d: Delays, s: State, step: Step, steps: seq<Step>)
    ensures Run(d, s, [step] + steps) == Run(d, Next(d, s, step), steps)
  {
    assert ([step] + steps)[1..] == steps;
  }

  lemma HolderAccepts(d: Delays, s: State, v: nat, h: Hash)
    requires v < |s.validators| && s.validators[v].hash == h && Holds(d, s.validators[v], s.now)
    ensures exists steps: seq<Step> :: AcceptedAt(Run(d, s, steps), v, h)
  {
    var steps := [Check(v)] + ([Validate(v)] + ([Store(v, false)] + []));
    RunCons(d, s, Check(v), [Validate(v)] + ([Store(v, false)] + []));
    RunCons(d, Next(d, s, Check(v)), Validate(v), [Store(v, false)] + []);
    RunCons(d, Next(d, Next(d, s, Check(v)), Validate(v)), Store(v, false), []);
    assert AcceptedAt(Run(d, s, steps), v, h);
  }

  /** A new call finds the key in the cache or in its row. */
  lemma NewCallHolds(d: Delays, s: State, h: Hash) returns (t: State, steps: seq<Step>)
    requires (h in s.rows && IsValid(s.rows[h], s.now)) ||
             (h in s.cache && Live(s.cache[h], s.now) && Unexpired(s.cache[h].info, s.now))
    ensures t == Run(d, s, steps) && |t.validators| == |s.validators| + 1
    ensures t.validators[|s.validators|].hash == h && Holds(d, t.validators[|s.validators|], t.now)
  {
    var v := |s.validators|;
    var fromCache := h in s.cache && Live(s.cache[h], s.now) && Unexpired(s.cache[h].info, s.now);
    var s1 := Next(d, s, Start(h));
    var s2 := Next(d, s1, Get(v, fromCache));
    t := Next(d, s2, Fetch(v, true));
    steps := [Start(h)] + ([Get(v, fromCache)] + ([Fetch(v, true)] + []));
    RunCons(d, s, Start(h), [Get(v, fromCache)] + ([Fetch(v, true)] + []));
    RunCons(d, s1, Get(v, fromCache), [Fetch(v, true)] + []);
    RunCons(d, s2, Fetch(v, true), []);
  }

  lemma {:induction false} RunConcat(d: Delays, s: State, a: seq<Step>, b: seq<Step>)
    ensures Run(d, s, a + b) == Run(d, Run(d, s, a), b)
    decreases |a|
  {
    if a == [] {
      assert a + b == b;
    } else {
      assert (a + b)[1..] == a[1..] + b;
      RunConcat(d, Next(d, s, a[0]), a[1..], b);
    }
  }

  /**
   Revocation is not immediate; this is exactly when it has happened. A key that existed can still
   be accepted in some continuation if and only if it has a valid row, a usable cache entry, or a call
   in flight that already holds it.
   */
  lemma RevokedIff(d: Delays, s: State, h: Hash)
    requires h in s.born
    ensures CanStillBeAccepted(d, s, h) <==> !Gone(d, s, h)
  {
    if Gone(d, s, h) {
      forall steps ensures !NewlyAccepted(s, Run(d, s, steps), h) {
        GoneForGood(d, s, steps, h);
      }
    } else {
      var t, before, v := s, [], 0;
      if i :| 0 <= i < |s.validators| && s.validators[i].hash == h && Holds(d, s.validators[i], s.now) {
        v := i;
      } else {
        t, before := NewCallHolds(d, s, h);
        v := |s.validators|;
      }
      HolderAccepts(d, t, v, h);
      var after :| AcceptedAt(Run(d, t, after), v, h);
      RunConcat(d, s, before, after);
      assert NewlyAccepted(s, Run(d, s, before + after), h);
    }
  }

  // ----- What a deletion ends -----

  predicate Held(d: Delays, s: State, h: Hash) {
    exists v :: 0 <= v < |s.validators| && s.validators[v].hash == h && Holds(d, s.validators[v], s.now)
  }

  predicate Usable(s: State, h: Hash) {
    h in s.cache && Live(s.cache[h], s.now) && Unexpired(s.cache[h].info, s.now)
  }

  /** No call for the key is under way. */
  predicate Idle(s: State, h: Hash) {
    forall v :: 0 <= v < |s.validators| && s.validators[v].hash == h ==>
      s.validators[v].Accepted? || s.validators[v].Rejected?
  }

  /** The row is deleted first and the cache entry later, with any other commands in between. */
  function AfterDeletion(d: Delays, s: State, h: Hash, mid: seq<Step>): State {
    Run(d, s, [DeleteRow(h)] + (mid + ([DropCache(h)] + [])))
  }

  lemma DeletionUnfolds(d: Delays, s: State, h: Hash, mid: seq<Step>)
    ensures AfterDeletion(d, s, h, mid) == Next(d, Run(d, Next(d, s, DeleteRow(h)), mid), DropCache(h))
  {
    hide Apply, Enabled;
    var s1 := Next(d, s, DeleteRow(h));
    RunCons(d, s, DeleteRow(h), mid + ([DropCache(h)] + []));
    RunConcat(d, s1, mid, [DropCache(h)] + []);
    RunCons(d, Run(d, s1, mid), DropCache(h), []);
  }

  /** A deleted key is never created again. */
  lemma {:induction false} RowStaysGone(d: Delays, s: State, steps: seq<Step>, h: Hash)
    requires h in s.born && h !in s.rows
    ensures h in Run(d, s, steps).born && h !in Run(d, s, steps).rows
    decreases |steps|
  {
    if steps == [] {
    } else {
      RowStaysGone(d, Next(d, s, steps[0]), steps[1..], h);
    }
  }

  lemma GoneIffUnheld(d: Delays, s: State, h: Hash)
    requires h in s.born && h !in s.rows
    ensures Gone(d, s, h) <==> !Usable(s, h) && !Held(d, s, h)
  {
  }

  /**
   For a deletion with anything between its two commands: once the cache entry is gone too, the key can
   still be accepted exactly if a call holds it at that moment.
   */
  lemma DeletionRevokesIff(d: Delays, s: State, h: Hash, mid: seq<Step>)
    requires h in s.rows && h in s.born
    ensures var t := AfterDeletion(d, s, h, mid);
      && h !in t.rows && h !in t.cache && (CanStillBeAccepted(d, t, h) <==> Held(d, t, h))
  {
    hide Run, CanStillBeAccepted, Gone, Held;
    DeletionUnfolds(d, s, h, mid);
    RowStaysGone(d, Next(d, s, DeleteRow(h)), mid, h);
    var t := AfterDeletion(d, s, h, mid);
    GoneIffUnheld(d, t, h);
    RevokedIff(d, t, h);
  }

  ghost predicate StartsNone(steps: seq<Step>, h: Hash) { forall i :: 0 <= i < |steps| ==> steps[i] != Start(h) }

  lemma {:induction false} IdleRun(d: Delays, s: State, steps: seq<Step>, h: Hash)
    requires Idle(s, h) && StartsNone(steps, h)
    ensures Idle(Run(d, s, steps), h)
    decreases |steps|
  {
    hide Apply, Enabled, Idle;
    if steps == [] {
    } else {
      if Enabled(d, s, steps[0]) {
        IdleStep(d, s, steps[0], h);
      }
      IdleRun(d, Next(d, s, steps[0]), steps[1..], h);
    }
  }

  lemma IdleStep(d: Delays, s: State, step: Step, h: Hash)
    requires Idle(s, h) && Enabled(d, s, step) && step != Start(h)
    ensures Idle(Apply(d, s, step), h)
  {
  }

  /**
   Main result. If no call for the key is under way when its row is deleted and none starts before its
   cache entry is, the deletion takes effect at once and for good.
   */
  lemma DeletionRevokes(d: Delays, s: State, h: Hash, mid: seq<Step>)
    requires h in s.rows && h in s.born && Idle(s, h) && StartsNone(mid, h)
    ensures !CanStillBeAccepted(d, AfterDeletion(d, s, h, mid), h)
  {
    hide Run, CanStillBeAccepted;
    DeletionUnfolds(d, s, h, mid);
    DeletionRevokesIff(d, s, h, mid);
    IdleRun(d, Next(d, s, DeleteRow(h)), mid, h);
  }

  ghost predicate CanOutlive(d: Delays, s: State, h: Hash) {
    exists mid: seq<Step> :: CanStillBeAccepted(d, AfterDeletion(d, s, h, mid), h)
  }

  /** A call that starts after the row delete and still hits the cache before the DEL. */
  function HitBetween(h: Hash, v: nat): seq<Step> { [Start(h)] + ([Get(v, true)] + []) }

  lemma HitHolds(d: Delays, s: State, h: Hash)
    requires Usable(s, h)
    ensures Held(d, Run(d, s, HitBetween(h, |s.validators|)), h)
  {
    var v := |s.validators|;
    var s1 := Next(d, s, Start(h));
    var s2 := Next(d, s1, Get(v, true));
    RunCons(d, s, Start(h), [Get(v, true)] + []);
    RunCons(d, s1, Get(v, true), []);
    assert Holds(d, s2.validators[v], s2.now) && s2.validators[v].hash == h;
  }

  /**
   Exactly when some scheduling lets a key outlive its deletion, judged before it: a call already holds
   the key, or its cache entry can still be hit before it is deleted.
   */
  lemma CanOutliveIff(d: Delays, s: State, h: Hash)
    requires h in s.rows && h in s.born
    ensures CanOutlive(d, s, h) <==> Held(d, s, h) || Usable(s, h)
  {
    hide Run, CanStillBeAccepted, AfterDeletion, Gone;
    var s1 := Next(d, s, DeleteRow(h));
    assert Held(d, s1, h) == Held(d, s, h) && Usable(s1, h) == Usable(s, h);
    if Held(d, s, h) {
      Outlived(d, s, h, []);
    } else if Usable(s, h) {
      HitHolds(d, s1, h);
      Outlived(d, s, h, HitBetween(h, |s.validators|));
    } else {
      GoneIffUnheld(d, s1, h);
      forall mid: seq<Step> ensures !CanStillBeAccepted(d, AfterDeletion(d, s, h, mid), h) {
        NotOutlived(d, s, h, mid);
      }
    }
  }

  lemma Outlived(d: Delays, s: State, h: Hash, mid: seq<Step>)
    requires h in s.rows && h in s.born
    requires Held(d, Run(d, Next(d, s, DeleteRow(h)), mid), h) || (mid == [] && Held(d, Next(d, s, DeleteRow(h)), h))
    ensures CanStillBeAccepted(d, AfterDeletion(d, s, h, mid), h)
  {
    hide CanStillBeAccepted, Holds;
    DeletionUnfolds(d, s, h, mid);
    DeletionRevokesIff(d, s, h, mid);
  }

  lemma NotOutlived(d: Delays, s: State, h: Hash, mid: seq<Step>)
    requires h in s.born && Gone(d, Next(d, s, DeleteRow(h)), h)
    ensures !CanStillBeAccepted(d, AfterDeletion(d, s, h, mid), h)
  {
    hide Run, CanStillBeAccepted, Gone, Apply;
    DeletionUnfolds(d, s, h, mid);
    var s1 := Next(d, s, DeleteRow(h));
    GoneForGood(d, s1, mid, h);
    GoneStep(d, Run(d, s1, mid), DropCache(h), h);
    GoneIsBorn(d, AfterDeletion(d, s, h, mid), h);
    RevokedIff(d, AfterDeletion(d, s, h, mid), h);
  }

  lemma GoneIsBorn(d: Delays, s: State, h: Hash)
    requires Gone(d, s, h)
    ensures h in s.born
  {
  }

  function CreatedRow(h: Hash, expiresAt: Option<nat>): Row { Row(Info(1, h, expiresAt), None, true) }

  function FetchSteps(h: Hash, expiresAt: Option<nat>): seq<Step> {
    [Create(h, 1, None, expiresAt)] + ([Start(h)] + ([Get(0, true)] + ([Fetch(0, true)] + [])))
  }

  /** A key is created and a first call has read its row. */
  function FetchedState(h: Hash, expiresAt: Option<nat>): State {
    var row := CreatedRow(h, expiresAt);
    State(0, map[h := row], map[], [Fetched(h, row, 0)], {Read(row, 0)}, {h}, map[])
  }

  lemma RunFetches(d: Delays, h: Hash, expiresAt: Option<nat>)
    ensures Run(d, INIT, FetchSteps(h, expiresAt)) == FetchedState(h, expiresAt)
  {
    var s1 := Next(d, INIT, Create(h, 1, None, expiresAt));
    var s2 := Next(d, s1, Start(h));
    var s3 := Next(d, s2, Get(0, true));
    RunCons(d, INIT, Create(h, 1, None, expiresAt), [Start(h)] + ([Get(0, true)] + ([Fetch(0, true)] + [])));
    RunCons(d, s1, Start(h), [Get(0, true)] + ([Fetch(0, true)] + []));
    RunCons(d, s2, Get(0, true), [Fetch(0, true)] + []);
    RunCons(d, s3, Fetch(0, true), []);
    assert s3.validators == [Missed(h)];
  }

  /** Deleting a key does not end its acceptance while a call that read it is under way. */
  lemma DeletionIsNotImmediate(d: Delays, h: Hash)
    ensures exists before: seq<Step> ::
              var s := Run(d, INIT, before); h in s.rows && h in s.born && CanOutlive(d, s, h)
  {
    hide Run, CanOutlive;
    RunFetches(d, h, None);
    var s := FetchedState(h, None);
    assert s.validators[0].hash == h && Holds(d, s.validators[0], s.now);
    CanOutliveIff(d, s, h);
    assert Run(d, INIT, FetchSteps(h, None)) == s;
  }

  /** The first call, its clock check `wait` before its cache write. */
  function AcceptSteps(wait: nat): seq<Step> { [Validate(0)] + ([Tick(wait)] + ([Store(0, true)] + [])) }

  lemma RunAccepts(d: Delays, h: Hash, expiresAt: Option<nat>, wait: nat)
    requires wait <= d.toStore && (expiresAt.Some? ==> expiresAt.value > 0)
    ensures var s, row := FetchedState(h, expiresAt), CreatedRow(h, expiresAt);
            Run(d, INIT, FetchSteps(h, expiresAt) + AcceptSteps(wait))
            == s.(now := wait, cache := map[h := Cached(row.info, 0, wait)],
                  validators := [Accepted(h, row.info, 0, 0, wait, false)])
  {
    var s, row := FetchedState(h, expiresAt), CreatedRow(h, expiresAt);
    RunFetches(d, h, expiresAt);
    RunConcat(d, INIT, FetchSteps(h, expiresAt), AcceptSteps(wait));
    var s1 := Next(d, s, Validate(0));
    var s2 := Next(d, s1, Tick(wait));
    RunCons(d, s, Validate(0), [Tick(wait)] + ([Store(0, true)] + []));
    RunCons(d, s1, Tick(wait), [Store(0, true)] + []);
    RunCons(d, s2, Store(0, true), []);
    assert s1.validators == [Checked(h, row.info, 0, 0)];
  }

  /** With no call under way, one that hits the cache between the two deletes outlives them. */
  lemma HitBetweenDeletes(d: Delays, h: Hash)
    ensures exists before: seq<Step> ::
              var s := Run(d, INIT, before); h in s.rows && h in s.born && Idle(s, h) && CanOutlive(d, s, h)
  {
    hide Run, CanOutlive;
    RunAccepts(d, h, None, 0);
    var s := Run(d, INIT, FetchSteps(h, None) + AcceptSteps(0));
    CanOutliveIff(d, s, h);
  }

  /** Every acceptance comes before the expiry exactly if the cache write after a miss takes no time. */
  lemma NeverAfterExpiryIff(d: Delays)
    ensures NeverAfterExpiry(d) <==> d.toStore == 0
  {
    hide Run, FetchSteps, AcceptSteps;
    if d.toStore == 0 {
      forall steps, v: nat | v < |Run(d, INIT, steps).validators| && Run(d, INIT, steps).validators[v].Accepted?
        ensures Unexpired(Run(d, INIT, steps).validators[v].info, Run(d, INIT, steps).validators[v].at)
      {
        RevocationLagIsBounded(d, steps, v);
      }
    } else {
      RunAccepts(d, "", Some(1), 1);
      var s := Run(d, INIT, FetchSteps("", Some(1)) + AcceptSteps(1));
      assert s.validators[0].Accepted? && !Unexpired(s.validators[0].info, s.validators[0].at);
    }
  }

  // ----- The function as the source writes it -----

  class KeyStore {
    var now: nat
    var rows: map<Hash, Row>
    var cache: map<Hash, Cached>

    ghost function View(validators: seq<Validator>): State
      reads this
    {
      State(now, rows, cache, validators, {}, {}, map[])
    }

    /** `validate_api_key`; `sha256` is the hash, the flags tell which services answer. */
    method ValidateApiKey(apiKey: string, sha256: string -> Hash, redisUp: bool, dbUp: bool, storeUp: bool)
      returns (r: Result<Info, AuthError>)
      modifies this`cache
      ensures !(|apiKey| == 39 && apiKey[..7] == "nadfun_") ==> r == Err(Unauthorized) && cache == old(cache)
      ensures |apiKey| == 39 && apiKey[..7] == "nadfun_" ==>
                var h := sha256(apiKey);
                if redisUp && h in old(cache) && now < old(cache)[h].storedAt + 300_000 then
                  var info := old(cache)[h].info;
                  && cache == old(cache)
                  && r == if info.expiresAt.Some? && info.expiresAt.value <= now then Err(Unauthorized) else Ok(info)
                else
                  && (r == Err(Internal) <==> !dbUp)
                  && (r.Ok? <==> dbUp && h in rows && rows[h].active
                                 && (rows[h].info.expiresAt.Some? ==> now < rows[h].info.expiresAt.value))
                  && (r.Ok? ==> r.value == rows[h].info)
                  && cache == if r.Ok? && storeUp then old(cache)[h := Cached(r.value, now, now)] else old(cache)
      ensures |apiKey| == 39 && apiKey[..7] == "nadfun_" ==>
                var h := sha256(apiKey);
                var t := Run(Delays(0, 0), old(View([Started(h)])), CallSteps(redisUp, dbUp, storeUp));
                && cache == t.cache && rows == t.rows && |t.validators| == 1
                && (match t.validators[0]
                    case Accepted(_, info, _, _, _, _) => r == Ok(info)
                    case Rejected(_, error) => r == Err(error)
                    case _ => false)
    {
      if |apiKey| < |PREFIX| || apiKey[..|PREFIX|] != PREFIX || |apiKey| != |PREFIX| + RANDOM_LENGTH {
        return Err(Unauthorized);
      }
      var h := sha256(apiKey);
      CallOutcome(View([Started(h)]), h, redisUp, dbUp, storeUp);
      if redisUp && h in cache && now < cache[h].storedAt + TTL {
        var info := cache[h].info;
        if info.expiresAt.Some? && now >= info.expiresAt.value {
          return Err(Unauthorized);
        }
        return Ok(info);
      }
      if !dbUp {
        return Err(Internal);
      }
      if h !in rows {
        return Err(Unauthorized);
      }
      var row := rows[h];
      if !row.active || (row.info.expiresAt.Some? && now >= row.info.expiresAt.value) {
        return Err(Unauthorized);
      }
      if storeUp {
        cache := cache[h := Cached(row.info, now, now)];
      }
      return Ok(row.info);
    }

    /** `delete_api_key` (no owner) and `delete_api_key_by_owner`; an error of the DEL is ignored. */
    method DeleteApiKey(id: nat, owner: Option<string>, redisUp: bool) returns (deleted: Option<Hash>)
      requires UniqueIds(rows)
      modifies this`rows, this`cache
      ensures deleted.None? ==>
                && rows == old(rows) && cache == old(cache)
                && (forall h :: h in rows ==> rows[h].info.id != id || (owner.Some? && rows[h].owner != owner))
      ensures deleted.Some? ==>
                var h := deleted.value;
                && h in old(rows) && old(rows)[h].info.id == id && (owner.Some? ==> old(rows)[h].owner == owner)
                && rows == old(rows) - {h} && cache == if redisUp then old(cache) - {h} else old(cache)
    {
      var selected := set h | h in rows && rows[h].info.id == id && (owner.Some? ==> rows[h].owner == owner);
      if selected == {} {
        assert forall h :: h in rows && rows[h].info.id == id && (owner.Some? ==> rows[h].owner == owner) ==>
                             h in selected;
        return None;
      }
      var h :| h in selected;
      rows := rows - {h};
      if redisUp {
        cache := cache - {h};
      }
      return Some(h);
    }
  }

  ghost predicate UniqueIds(rows: map<Hash, Row>) {
    forall h, h' :: h in rows && h' in rows && rows[h].info.id == rows[h'].info.id ==> h == h'
  }

  /** The commands of one call; those its course does not reach are not enabled. */
  function CallSteps(redisUp: bool, dbUp: bool, storeUp: bool): seq<Step> {
    [Get(0, redisUp)] + ([Check(0)] + ([Fetch(0, dbUp)] + ([Validate(0)] + ([Store(0, storeUp)] + []))))
  }

  function CallResult(s: State, h: Hash, redisUp: bool, dbUp: bool): Validator {
    if redisUp && h in s.cache && Live(s.cache[h], s.now) then AfterCheck(AfterGet(s, h, true), s.now)
    else if dbUp && h in s.rows && IsValid(s.rows[h], s.now)
    then Accepted(h, s.rows[h].info, s.now, s.now, s.now, false)
    else Rejected(h, if dbUp then Unauthorized else Internal)
  }

  lemma CallOutcome(s: State, h: Hash, redisUp: bool, dbUp: bool, storeUp: bool)
    requires s.validators == [Started(h)]
    ensures var t := Run(Delays(0, 0), s, CallSteps(redisUp, dbUp, storeUp));
            var hit := redisUp && h in s.cache && Live(s.cache[h], s.now);
            var result := CallResult(s, h, redisUp, dbUp);
      && t.validators == [result] && t.rows == s.rows
      && t.cache == if !hit && result.Accepted? && storeUp
                    then s.cache[h := Cached(result.info, s.now, s.now)] else s.cache
  {
    var d := Delays(0, 0);
    var s1 := Next(d, s, Get(0, redisUp));
    var s2 := Next(d, s1, Check(0));
    var s3 := Next(d, s2, Fetch(0, dbUp));
    var s4 := Next(d, s3, Validate(0));
    RunCons(d, s, Get(0, redisUp), [Check(0)] + ([Fetch(0, dbUp)] + ([Validate(0)] + ([Store(0, storeUp)] + []))));
    RunCons(d, s1, Check(0), [Fetch(0, dbUp)] + ([Validate(0)] + ([Store(0, storeUp)] + [])));
    RunCons(d, s2, Fetch(0, dbUp), [Validate(0)] + ([Store(0, storeUp)] + []));
    RunCons(d, s3, Validate(0), [Store(0, storeUp)] + []);
    RunCons(d, s4, Store(0, storeUp), []);
    FirstHalf(s, h, redisUp);
    SecondHalf(s2, h, dbUp, storeUp);
  }

  lemma FirstHalf(s: State, h: Hash, redisUp: bool)
    requires s.validators == [Started(h)]
    ensures var t := Next(Delays(0, 0), Next(Delays(0, 0), s, Get(0, redisUp)), Check(0));
            t == s.(validators := [if redisUp && h in s.cache && Live(s.cache[h], s.now)
                                   then AfterCheck(AfterGet(s, h, true), s.now) else Missed(h)])
  {
  }

  lemma SecondHalf(s: State, h: Hash, dbUp: bool, storeUp: bool)
    requires |s.validators| == 1
    requires s.validators[0] == Missed(h) || s.validators[0].Accepted? || s.validators[0].Rejected?
    ensures var d := Delays(0, 0);
            var t := Next(d, Next(d, Next(d, s, Fetch(0, dbUp)), Validate(0)), Store(0, storeUp));
            var result := CallResult(s, h, false, dbUp);
      && t.rows == s.rows
      && (s.validators[0] != Missed(h) ==> t == s)
      && (s.validators[0] == Missed(h) ==>
            t.validators == [result]
            && t.cache == if result.Accepted? && storeUp
                          then s.cache[h := Cached(result.info, s.now, s.now)] else s.cache)
  {
  }
}
