/**
 Usage counting of API keys (src/services/api_key.rs, src/db/redis/mod.rs): every request INCRs a
 Redis counter, sync loops of several server instances move the counters into the database with
 GETSET and UPDATE, keys are deleted and a starting instance
 deletes the prefixed keys one by one, all interleaved.
 */
module ApiUsage {
  import opened Prelude

  type Hash = string

  /** A sync loop of one instance: the keys still to visit, and what it took and has not written. */
  datatype SyncLoop =
    | Idle
    | Scanning(keys: seq<Hash>)
    | Holding(key: Hash, amount: nat, keys: seq<Hash>)

  /**
   `db` is api_keys.request_count, `counter` the Redis usage counters. `increments` and `lost` are
   history: the INCRs executed, and the counts that can no longer reach the database.
   */
  datatype State = State(
    db: map<Hash, nat>, counter: map<Hash, nat>, loops: seq<SyncLoop>,
    increments: map<Hash, nat>, lost: map<Hash, nat>)

  datatype Step =
    | Create(h: Hash)
    | Incr(h: Hash)
    | Scan(l: nat, found: seq<Hash>)       // SCAN may repeat and may miss keys
    | Take(l: nat, replyLost: bool)        // GETSET 0; a lost reply is read as count 0
    | TakeFails(l: nat)                    // GETSET not executed
    | Update(l: nat, applied: bool)        // UPDATE .. request_count + $1
    | Finish(l: nat)
    | Crash(l: nat)
    | DeleteRow(h: Hash)
    | DropCounter(h: Hash)                 // DEL, for a deleted key or in the cleanup loop at start-up

  function Get(m: map<Hash, nat>, h: Hash): nat { if h in m then m[h] else 0 }

  function Add(m: map<Hash, nat>, h: Hash, n: nat): map<Hash, nat> { m[h := Get(m, h) + n] }

  function Init(instances: nat): State {
    State(map[], map[], seq(instances, _ => Idle), map[], map[])
  }

  predicate Enabled(s: State, step: Step) {
    match step
    case Create(h) => h !in s.db && h !in s.increments
    case Scan(l, _) => l < |s.loops| && s.loops[l].Idle?
    case Take(l, _) => l < |s.loops| && s.loops[l].Scanning? && s.loops[l].keys != []
    case TakeFails(l) => l < |s.loops| && s.loops[l].Scanning? && s.loops[l].keys != []
    case Update(l, _) => l < |s.loops| && s.loops[l].Holding?
    case Finish(l) => l < |s.loops| && s.loops[l].Scanning? && s.loops[l].keys == []
    case Crash(l) => l < |s.loops|
    case DeleteRow(h) => h in s.db
    case _ => true
  }

  function Apply(s: State, step: Step): State
    requires Enabled(s, step)
  {
    match step
    case Create(h) => s.(db := s.db[h := 0])
    case Incr(h) => s.(counter := Add(s.counter, h, 1), increments := Add(s.increments, h, 1))
    case Scan(l, found) => s.(loops := s.loops[l := Scanning(found)])
    case Take(l, replyLost) =>
      var h, rest := s.loops[l].keys[0], s.loops[l].keys[1..];
      var n := Get(s.counter, h);
      var taken := s.(counter := s.counter[h := 0]);
      if replyLost then taken.(loops := s.loops[l := Scanning(rest)], lost := Add(s.lost, h, n))
      else if n > 0 then taken.(loops := s.loops[l := Holding(h, n, rest)])
      else taken.(loops := s.loops[l := Scanning(rest)])
    case TakeFails(l) => s.(loops := s.loops[l := Scanning(s.loops[l].keys[1..])])
    case Update(l, applied) =>
      var Holding(h, n, rest) := s.loops[l];
      var next := s.(loops := s.loops[l := Scanning(rest)]);
      // an UPDATE that finds no row succeeds and writes nothing
      if applied && h in s.db then next.(db := Add(s.db, h, n)) else next.(lost := Add(s.lost, h, n))
    case Finish(l) => s.(loops := s.loops[l := Idle])
    case Crash(l) =>
      var next := s.(loops := s.loops[l := Idle]);
      if s.loops[l].Holding? then next.(lost := Add(s.lost, s.loops[l].key, s.loops[l].amount)) else next
    case DeleteRow(h) => s.(db := s.db - {h}, lost := Add(s.lost, h, s.db[h]))
    case DropCounter(h) => s.(counter := s.counter - {h}, lost := Add(s.lost, h, Get(s.counter, h)))
  }

  function Next(s: State, step: Step): State { if Enabled(s, step) then Apply(s, step) else s }

  /** Runs: steps that are not enabled change nothing. */
  function Run(s: State, steps: seq<Step>): State
    decreases |steps|
  {
    if steps == [] then s
    else Run(Next(s, steps[0]), steps[1..])
  }

  // ----- Conservation -----

  function HeldBy(loop: SyncLoop, h: Hash): nat {
    if loop.Holding? && loop.key == h then loop.amount else 0
  }

  function Held(loops: seq<SyncLoop>, h: Hash): nat {
    if loops == [] then 0 else Held(loops[..|loops| - 1], h) + HeldBy(loops[|loops| - 1], h)
  }

  lemma {:induction false} HeldUpdate(loops: seq<SyncLoop>, l: nat, loop: SyncLoop, h: Hash)
    requires l < |loops|
    ensures Held(loops[l := loop], h) + HeldBy(loops[l], h) == Held(loops, h) + HeldBy(loop, h)
  {
    var n := |loops| - 1;
    if l < n {
      HeldUpdate(loops[..n], l, loop, h);
      assert loops[l := loop][..n] == loops[..n][l := loop];
    } else {
      assert loops[l := loop][..n] == loops[..n];
    }
  }

  predicate ConservedFor(s: State, h: Hash) {
    Get(s.increments, h) == Get(s.db, h) + Get(s.counter, h) + Held(s.loops, h) + Get(s.lost, h)
  }

  lemma TakeConserves(s: State, l: nat, replyLost: bool, h: Hash)
    requires ConservedFor(s, h) && Enabled(s, Take(l, replyLost))
    ensures ConservedFor(Apply(s, Take(l, replyLost)), h)
  {
    hide Held;
    var key, rest := s.loops[l].keys[0], s.loops[l].keys[1..];
    HeldUpdate(s.loops, l, Scanning(rest), h);
    HeldUpdate(s.loops, l, Holding(key, Get(s.counter, key), rest), h);
  }

  lemma UpdateConserves(s: State, l: nat, applied: bool, h: Hash)
    requires ConservedFor(s, h) && Enabled(s, Update(l, applied))
    ensures ConservedFor(Apply(s, Update(l, applied)), h)
  {
    hide Held;
    HeldUpdate(s.loops, l, Scanning(s.loops[l].keys), h);
  }

  lemma CrashConserves(s: State, l: nat, h: Hash)
    requires ConservedFor(s, h) && Enabled(s, Crash(l))
    ensures ConservedFor(Apply(s, Crash(l)), h)
  {
    hide Held;
    HeldUpdate(s.loops, l, Idle, h);
  }

  lemma StepConserves(s: State, step: Step, h: Hash)
    requires ConservedFor(s, h) && Enabled(s, step)
    ensures ConservedFor(Apply(s, step), h)
  {
    hide Held;
    match step
    case Take(l, replyLost) => TakeConserves(s, l, replyLost, h);
    case Update(l, applied) => UpdateConserves(s, l, applied, h);
    case Scan(l, found) => HeldUpdate(s.loops, l, Scanning(found), h);
    case TakeFails(l) => HeldUpdate(s.loops, l, Scanning(s.loops[l].keys[1..]), h);
    case Finish(l) => HeldUpdate(s.loops, l, Idle, h);
    case Crash(l) => CrashConserves(s, l, h);
    case _ =>
  }

  lemma {:induction false} RunConserves(s: State, steps: seq<Step>, h: Hash)
    requires ConservedFor(s, h)
    ensures ConservedFor(Run(s, steps), h)
    decreases |steps|
  {
    if steps == [] {
    } else {
      if Enabled(s, steps[0]) {
        StepConserves(s, steps[0], h);
        RunConserves(Apply(s, steps[0]), steps[1..], h);
      } else {
        RunConserves(s, steps[1..], h);
      }
    }
  }

  /** How many requests of a key were counted in the run. */
  function Requests(steps: seq<Step>, h: Hash): nat {
    if steps == [] then 0 else (if steps[0] == Incr(h) then 1 else 0) + Requests(steps[1..], h)
  }

  lemma {:induction false} RunCounts(s: State, steps: seq<Step>, h: Hash)
    ensures Get(Run(s, steps).increments, h) == Get(s.increments, h) + Requests(steps, h)
    decreases |steps|
  {
    if steps == [] {
    } else {
      RunCounts(Next(s, steps[0]), steps[1..], h);
    }
  }

  /**
   Main result. In every interleaving the requests counted for a key are exactly what is in the database,
   in Redis, taken and not yet written, or lost; so the database never over-counts.
   */
  lemma UsageConserved(instances: nat, steps: seq<Step>, h: Hash)
    ensures var s := Run(Init(instances), steps);
      && Requests(steps, h) == Get(s.db, h) + Get(s.counter, h) + Held(s.loops, h) + Get(s.lost, h)
      && Get(s.db, h) <= Requests(steps, h)
  {
    NothingHeld(Init(instances).loops, h);
    RunConserves(Init(instances), steps, h);
    RunCounts(Init(instances), steps, h);
  }

  // ----- When nothing is lost -----

  predicate NextTaken(s: State, l: nat, h: Hash) {
    l < |s.loops| && s.loops[l].Scanning? && s.loops[l].keys != [] && s.loops[l].keys[0] == h
  }

  predicate InFlight(s: State, l: nat, h: Hash) { l < |s.loops| && s.loops[l].Holding? && s.loops[l].key == h }

  /**
   A step that loses no count of this key in this state: no lost reply or failed write of its counts, no
   deletion of its row or counter, no request for it without a row. Other keys may fare as they like.
   */
  predicate HarmlessFor(s: State, step: Step, h: Hash) {
    match step
    case Incr(k) => k == h ==> h in s.db
    case Take(l, replyLost) => replyLost ==> !NextTaken(s, l, h)
    case Update(l, applied) => !applied ==> !InFlight(s, l, h)
    case Crash(l) => !InFlight(s, l, h)
    case DeleteRow(k) => k != h
    case DropCounter(k) => k != h
    case _ => true
  }

  predicate AllHarmless(s: State, steps: seq<Step>, h: Hash)
    decreases |steps|
  {
    steps == [] || (HarmlessFor(s, steps[0], h) && AllHarmless(Next(s, steps[0]), steps[1..], h))
  }

  /** Nothing of the key is lost, and what Redis or a loop has of it belongs to a row. */
  ghost predicate Backed(s: State, h: Hash) {
    && Get(s.lost, h) == 0
    && (Get(s.counter, h) > 0 ==> h in s.db)
    && (forall l :: 0 <= l < |s.loops| && InFlight(s, l, h) ==> h in s.db)
  }

  lemma {:induction false} HarmlessRunLosesNothing(s: State, steps: seq<Step>, h: Hash)
    requires Backed(s, h) && AllHarmless(s, steps, h)
    ensures Backed(Run(s, steps), h)
    decreases |steps|
  {
    hide Backed, HarmlessFor, Apply, Enabled;
    if steps == [] {
    } else {
      HarmlessStepLosesNothing(s, steps[0], h);
      HarmlessRunLosesNothing(Next(s, steps[0]), steps[1..], h);
    }
  }

  lemma HarmlessStepLosesNothing(s: State, step: Step, h: Hash)
    requires Backed(s, h) && HarmlessFor(s, step, h)
    ensures Backed(Next(s, step), h)
  {
    if Enabled(s, step) {
      BackedLoops(s, step, h);
      if step.Update? {
        assert InFlight(s, step.l, h) ==> h in s.db;
      }
    }
  }

  lemma BackedLoops(s: State, step: Step, h: Hash)
    requires Backed(s, h) && HarmlessFor(s, step, h) && Enabled(s, step)
    ensures forall l :: 0 <= l < |s.loops| && InFlight(Apply(s, step), l, h) ==> h in Apply(s, step).db
  {
    var t := Apply(s, step);
    forall l | 0 <= l < |s.loops| && InFlight(t, l, h) ensures h in t.db {
      assert InFlight(s, l, h) ==> h in s.db;
    }
  }

  predicate Quiescent(s: State, h: Hash) {
    Get(s.counter, h) == 0 && forall l :: 0 <= l < |s.loops| ==> !InFlight(s, l, h)
  }

  lemma {:induction false} NothingHeld(loops: seq<SyncLoop>, h: Hash)
    requires forall l :: 0 <= l < |loops| ==> HeldBy(loops[l], h) == 0
    ensures Held(loops, h) == 0
  {
    if loops == [] {
    } else {
      NothingHeld(loops[..|loops| - 1], h);
    }
  }

  /**
   Main result. At quiescence of a key, after a run in which none of its own writes or replies failed and
   it was not deleted, its count is exact, whatever happened to other keys.
   */
  lemma ExactAtQuiescence(instances: nat, steps: seq<Step>, h: Hash)
    requires AllHarmless(Init(instances), steps, h)
    requires Quiescent(Run(Init(instances), steps), h)
    ensures Get(Run(Init(instances), steps).db, h) == Requests(steps, h)
  {
    hide Run, AllHarmless;
    UsageConserved(instances, steps, h);
    HarmlessRunLosesNothing(Init(instances), steps, h);
    QuietLoops(Run(Init(instances), steps), h);
  }

  lemma QuietLoops(s: State, h: Hash)
    requires Quiescent(s, h)
    ensures Held(s.loops, h) == 0
  {
    forall l | 0 <= l < |s.loops| ensures HeldBy(s.loops[l], h) == 0 {
      assert !InFlight(s, l, h);
    }
    NothingHeld(s.loops, h);
  }

  /** At quiescence the database is short by exactly what was lost. */
  lemma ShortfallIsLoss(instances: nat, steps: seq<Step>, h: Hash)
    requires Quiescent(Run(Init(instances), steps), h)
    ensures var s := Run(Init(instances), steps);
            Get(s.db, h) == Requests(steps, h) <==> Get(s.lost, h) == 0
  {
    UsageConserved(instances, steps, h);
    QuietLoops(Run(Init(instances), steps), h);
  }

  // ----- One pass of the sync loop as the source writes it -----

  const USAGE: string := "apikey:usage:"

  function StripPrefix(s: string, prefix: string): Option<string> {
    if |prefix| <= |s| && s[..|prefix|] == prefix then Some(s[|prefix|..]) else None
  }

  /** `with_prefix`; the configured namespace may be empty. */
  function WithPrefix(namespace: string, key: string): string {
    if namespace == "" then key else namespace + key
  }

  /** What SCAN's post-processing and the sync loop make of a stored key name. */
  function HashOfStoredKey(namespace: string, stored: string): Option<Hash> {
    match StripPrefix(stored, namespace)
    case Some(key) => StripPrefix(key, USAGE)
    case None => StripPrefix(stored, USAGE)
  }

  lemma StripIff(s: string, prefix: string, rest: string)
    ensures StripPrefix(s, prefix) == Some(rest) <==> s == prefix + rest
  {
  }

  /** The sync loop recovers exactly the hash whose counter is stored under a name. */
  lemma StoredKeyRoundTrip(namespace: string, h: Hash)
    ensures WithPrefix(namespace, USAGE + h) == namespace + "apikey:usage:" + h
    ensures HashOfStoredKey(namespace, namespace + "apikey:usage:" + h) == Some(h)
  {
    assert namespace + "apikey:usage:" + h == namespace + (USAGE + h);
    StripIff(namespace + (USAGE + h), namespace, USAGE + h);
    StripIff(USAGE + h, USAGE, h);
  }

  datatype Tables = Tables(db: map<Hash, nat>, counter: map<Hash, nat>, synced: nat)

  /** One visited key: take, and write if there is anything to write. */
  function SyncKey(t: Tables, key: string, writeOk: bool): Tables {
    match StripPrefix(key, USAGE)
    case None => t
    case Some(h) =>
      var n := Get(t.counter, h);
      var taken := t.(counter := t.counter[h := 0]);
      if n > 0 && writeOk
      then taken.(db := if h in t.db then Add(t.db, h, n) else t.db, synced := t.synced + 1)
      else taken
  }

  function SyncPass(t: Tables, keys: seq<string>, writeOk: nat -> bool): Tables {
    if keys == [] then t
    else SyncKey(SyncPass(t, keys[..|keys| - 1], writeOk), keys[|keys| - 1], writeOk(|keys| - 1))
  }

  class UsageStore {
    var db: map<Hash, nat>
    var counter: map<Hash, nat>

    ghost function View(synced: nat): Tables
      reads this
    {
      Tables(db, counter, synced)
    }

    /** `update_last_used` */
    method IncrUsage(h: Hash)
      modifies this`counter
      ensures counter == Add(old(counter), h, 1)
    {
      counter := counter[h := Get(counter, h) + 1];
    }

    /** GETSET with 0; a missing counter reads as 0 and comes into being. */
    method GetAndReset(h: Hash) returns (count: nat)
      modifies this`counter
      ensures count == Get(old(counter), h) && counter == old(counter)[h := 0]
    {
      count := if h in counter then counter[h] else 0;
      counter := counter[h := 0];
    }

    /** `sync_api_key_usage_to_db`, `writeOk(i)` telling whether the UPDATE for key `i` succeeds. */
    method SyncToDb(keys: seq<string>, writeOk: nat -> bool) returns (synced: nat)
      modifies this
      ensures View(synced) == SyncPass(old(View(0)), keys, writeOk)
    {
      synced := 0;
      for i := 0 to |keys|
        invariant View(synced) == SyncPass(old(View(0)), keys[..i], writeOk)
      {
        assert keys[..i + 1][..i] == keys[..i];
        var hash := StripPrefix(keys[i], USAGE);
        if hash.Some? {
          var count := GetAndReset(hash.value);
          if count > 0 && writeOk(i) {
            if hash.value in db {
              db := db[hash.value := db[hash.value] + count];
            }
            synced := synced + 1;
          }
        }
      }
      assert keys[..|keys|] == keys;
    }

    /** The Redis half of `delete_api_key`. */
    method DeleteUsageData(h: Hash)
      modifies this`counter
      ensures counter == old(counter) - {h}
    {
      counter := counter - {h};
    }
  }

  predicate Visits(keys: seq<string>, i: nat, h: Hash)
    requires i < |keys|
  {
    keys[i] == "apikey:usage:" + h
  }

  predicate Visited(keys: seq<string>, h: Hash) { exists i :: 0 <= i < |keys| && Visits(keys, i, h) }

  lemma VisitsIff(keys: seq<string>, i: nat, h: Hash)
    requires i < |keys|
    ensures Visits(keys, i, h) <==> StripPrefix(keys[i], USAGE) == Some(h)
  {
    StripIff(keys[i], USAGE, h);
  }

  /**
   A pass over any list of keys, repeats and foreign names included, resets every visited counter,
   leaves the others, and credits each row once, with the whole counter, when the write made at the
   first visit succeeds.
   */
  lemma {:induction false} SyncPassMovesOnce(t: Tables, keys: seq<string>, writeOk: nat -> bool, h: Hash)
    ensures var u := SyncPass(t, keys, writeOk);
      && u.db.Keys == t.db.Keys
      && Get(u.counter, h) == (if Visited(keys, h) then 0 else Get(t.counter, h))
      && (!Visited(keys, h) ==> Get(u.db, h) == Get(t.db, h))
      && (forall i :: 0 <= i < |keys| && Visits(keys, i, h) && !Visited(keys[..i], h) ==>
            Get(u.db, h) == Get(t.db, h) + if writeOk(i) && h in t.db then Get(t.counter, h) else 0)
  {
    hide StripPrefix, Visits;
    if keys == [] {
    } else {
      var n := |keys| - 1;
      var init := keys[..n];
      SyncPassMovesOnce(t, init, writeOk, h);
      VisitsIff(keys, n, h);
      assert Visited(keys, h) <==> Visited(init, h) || Visits(keys, n, h) by {
        VisitedLast(keys, h);
      }
      forall i | 0 <= i < |keys| && Visits(keys, i, h) && !Visited(keys[..i], h)
        ensures Get(SyncPass(t, keys, writeOk).db, h)
             == Get(t.db, h) + if writeOk(i) && h in t.db then Get(t.counter, h) else 0
      {
        if i < n {
          SameVisit(keys, n, i, h);
          assert Visits(init, i, h) && init[..i] == keys[..i];
          assert Visited(init, h);
        }
      }
    }
  }

  lemma SameVisit(keys: seq<string>, n: nat, i: nat, h: Hash)
    requires i < n <= |keys|
    ensures Visits(keys[..n], i, h) == Visits(keys, i, h)
  {
  }

  lemma VisitedLast(keys: seq<string>, h: Hash)
    requires keys != []
    ensures var n := |keys| - 1;
            Visited(keys, h) <==> Visited(keys[..n], h) || Visits(keys, n, h)
  {
    var n := |keys| - 1;
    if Visited(keys[..n], h) {
      var i :| 0 <= i < n && Visits(keys[..n], i, h);
      assert Visits(keys, i, h);
    }
    if Visited(keys, h) && !Visits(keys, n, h) {
      var i :| 0 <= i < |keys| && Visits(keys, i, h);
      assert Visits(keys[..n], i, h);
    }
  }

  /** Key `i` is the first visit to a counter that stands above zero, and its write succeeds. */
  predicate Credits(t: Tables, keys: seq<string>, i: nat, writeOk: nat -> bool)
    requires i < |keys|
  {
    && writeOk(i) && keys[i] !in keys[..i]
    && |keys[i]| >= 13 && keys[i][..13] == "apikey:usage:" && Get(t.counter, keys[i][13..]) > 0
  }

  function Credited(t: Tables, keys: seq<string>, writeOk: nat -> bool): set<nat> {
    set i: nat | i < |keys| && Credits(t, keys, i, writeOk)
  }

  lemma CreditsPrefix(t: Tables, keys: seq<string>, n: nat, i: nat, writeOk: nat -> bool)
    requires i < n <= |keys|
    ensures Credits(t, keys[..n], i, writeOk) == Credits(t, keys, i, writeOk)
  {
    assert keys[..n][..i] == keys[..i];
  }

  lemma CreditedLast(t: Tables, keys: seq<string>, writeOk: nat -> bool)
    requires keys != []
    ensures var n := |keys| - 1;
            |Credited(t, keys, writeOk)|
            == |Credited(t, keys[..n], writeOk)| + if Credits(t, keys, n, writeOk) then 1 else 0
  {
    hide Credits;
    var n := |keys| - 1;
    forall i: nat | i < n ensures Credits(t, keys[..n], i, writeOk) == Credits(t, keys, i, writeOk) {
      CreditsPrefix(t, keys, n, i, writeOk);
    }
    var before := Credited(t, keys[..n], writeOk);
    assert Credited(t, keys, writeOk) == if Credits(t, keys, n, writeOk) then before + {n} else before;
  }

  lemma VisitedIff(keys: seq<string>, h: Hash)
    ensures Visited(keys, h) <==> "apikey:usage:" + h in keys
  {
    if "apikey:usage:" + h in keys {
      var i :| 0 <= i < |keys| && keys[i] == "apikey:usage:" + h;
      assert Visits(keys, i, h);
    }
  }

  lemma PrefixedIff(key: string)
    ensures StripPrefix(key, USAGE).Some? <==> |key| >= 13 && key[..13] == "apikey:usage:"
    ensures StripPrefix(key, USAGE).Some? ==>
              StripPrefix(key, USAGE).value == key[13..] && key == "apikey:usage:" + key[13..]
  {
  }

  /** What a pass reports as synced: the counters above zero whose write, at their first visit, succeeds. */
  lemma {:induction false} SyncPassCounts(t: Tables, keys: seq<string>, writeOk: nat -> bool)
    ensures SyncPass(t, keys, writeOk).synced == t.synced + |Credited(t, keys, writeOk)|
  {
    hide StripPrefix, Credited, Visited;
    if keys == [] {
      assert Credited(t, keys, writeOk) == {} by { NoneCredited(t, writeOk); }
    } else {
      var n := |keys| - 1;
      SyncPassCounts(t, keys[..n], writeOk);
      CreditedLast(t, keys, writeOk);
      PrefixedIff(keys[n]);
      if StripPrefix(keys[n], USAGE).Some? {
        VisitedIff(keys[..n], keys[n][13..]);
        SyncPassMovesOnce(t, keys[..n], writeOk, keys[n][13..]);
      }
    }
  }

  lemma NoneCredited(t: Tables, writeOk: nat -> bool)
    ensures Credited(t, [], writeOk) == {}
  {
  }

  // ----- The pass is a run of the machine -----

  function Names(hashes: seq<Hash>): seq<string> { seq(|hashes|, i requires 0 <= i < |hashes| => USAGE + hashes[i]) }

  /** The steps of one undisturbed pass over `n` keys; after a zero counter the write is not enabled. */
  function PassSteps(l: nat, n: nat, writeOk: nat -> bool): seq<Step> {
    if n == 0 then [] else PassSteps(l, n - 1, writeOk) + [Take(l, false), Update(l, writeOk(n - 1))]
  }

  lemma {:induction false} RunConcat(s: State, a: seq<Step>, b: seq<Step>)
    ensures Run(s, a + b) == Run(Run(s, a), b)
    decreases |a|
  {
    if a == [] {
      assert a + b == b;
    } else {
      assert (a + b)[1..] == a[1..] + b;
      RunConcat(Next(s, a[0]), a[1..], b);
    }
  }

  lemma RunTwo(s: State, x: Step, y: Step)
    ensures var t := if Enabled(s, x) then Apply(s, x) else s;
            Run(s, [x, y]) == if Enabled(t, y) then Apply(t, y) else t
  {
    var t := if Enabled(s, x) then Apply(s, x) else s;
    assert [x, y][1..] == [y];
    assert Run(t, [y]) == Run(if Enabled(t, y) then Apply(t, y) else t, []);
  }

  lemma SyncKeyOfHash(t: Tables, h: Hash, ok: bool)
    ensures var n := Get(t.counter, h);
            var u := SyncKey(t, USAGE + h, ok);
      && u.counter == t.counter[h := 0]
      && u.db == if n > 0 && ok && h in t.db then Add(t.db, h, n) else t.db
  {
    StripIff(USAGE + h, USAGE, h);
  }

  /** A take and its write, in which nothing comes between. */
  lemma TakeAndWrite(s: State, l: nat, ok: bool)
    requires l < |s.loops| && s.loops[l].Scanning? && s.loops[l].keys != []
    ensures var h := s.loops[l].keys[0];
            var n := Get(s.counter, h);
            var t := Next(Next(s, Take(l, false)), Update(l, ok));
      && t.counter == s.counter[h := 0]
      && t.db == (if n > 0 && ok && h in s.db then Add(s.db, h, n) else s.db)
      && t.loops == s.loops[l := Scanning(s.loops[l].keys[1..])]
  {
    hide Add, Get;
    var h, rest := s.loops[l].keys[0], s.loops[l].keys[1..];
    var n, s1 := Get(s.counter, h), Next(s, Take(l, false));
    if n > 0 {
      assert s1 == s.(counter := s.counter[h := 0], loops := s.loops[l := Holding(h, n, rest)]);
    } else {
      assert s1 == s.(counter := s.counter[h := 0], loops := s.loops[l := Scanning(rest)]);
    }
  }

  lemma VisitIsRun(s: State, l: nat, ok: bool)
    requires l < |s.loops| && s.loops[l].Scanning? && s.loops[l].keys != []
    ensures var t := Run(s, [Take(l, false), Update(l, ok)]);
            var u := SyncKey(Tables(s.db, s.counter, 0), USAGE + s.loops[l].keys[0], ok);
      && t.db == u.db && t.counter == u.counter
      && t.loops == s.loops[l := Scanning(s.loops[l].keys[1..])]
  {
    hide Apply, Enabled, Run, SyncKey, Add;
    RunTwo(s, Take(l, false), Update(l, ok));
    TakeAndWrite(s, l, ok);
    SyncKeyOfHash(Tables(s.db, s.counter, 0), s.loops[l].keys[0], ok);
  }

  lemma SyncKeyIgnoresCount(t: Tables, synced: nat, key: string, ok: bool)
    ensures var u := SyncKey(t, key, ok);
            SyncKey(t.(synced := synced), key, ok) == u.(synced := synced + u.synced - t.synced)
  {
  }

  /** An undisturbed pass of one loop is a run of the interleaving machine with the same outcome. */
  lemma {:induction false} SyncPassIsRun(s: State, l: nat, hashes: seq<Hash>, n: nat, writeOk: nat -> bool)
    requires l < |s.loops| && s.loops[l] == Scanning(hashes) && n <= |hashes|
    ensures var t := Run(s, PassSteps(l, n, writeOk));
            var u := SyncPass(Tables(s.db, s.counter, 0), Names(hashes)[..n], writeOk);
      && t.db == u.db && t.counter == u.counter && t.loops == s.loops[l := Scanning(hashes[n..])]
    decreases n
  {
    if n == 0 {
    } else {
      var t := Run(s, PassSteps(l, n - 1, writeOk));
      var names := Names(hashes);
      SyncPassIsRun(s, l, hashes, n - 1, writeOk);
      RunConcat(s, PassSteps(l, n - 1, writeOk), [Take(l, false), Update(l, writeOk(n - 1))]);
      VisitIsRun(t, l, writeOk(n - 1));
      assert names[..n][..n - 1] == names[..n - 1] && names[n - 1] == USAGE + hashes[n - 1];
      var u := SyncPass(Tables(s.db, s.counter, 0), names[..n - 1], writeOk);
      SyncKeyIgnoresCount(u, 0, names[n - 1], writeOk(n - 1));
    }
  }
}
