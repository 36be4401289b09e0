/**
 Order lists behind two caches (src/services/token/order.rs, src/controllers/token/order.rs,
 src/utils/single_flight.rs): Redis with a configured TTL in front, then each process's
 single-flight cache of 1000 ms, then the database. Requests of all processes interleave.
 */
module TwoTierCache {
  import opened Prelude
  import opened CacheKey

  type Tokens = seq<string>

  /** Milliseconds an entry of the in-process cache lives, from its insertion. */
  const LOCAL_TTL: nat := 1_000

  /**
   `db(q, t)` is what the database answers to `q` at time `t`. `toInsert` bounds the time from the
   database read to the insertion, `toStore` from then to the Redis write and the answer.
   */
  datatype Config = Config(
    plain: char -> bool, db: (Query, nat) -> Tokens, redisTtl: nat, toInsert: nat, toStore: nat)

  /** A token list; `readAt` records when it was read from the database. */
  datatype Listing = Listing(tokens: Tokens, readAt: nat)

  /** A cache entry; `q` records the query it was stored for. */
  datatype Stored = Stored(q: Query, list: Listing, storedAt: nat)

  /** One call of `get_order` in process `p`. */
  datatype Request =
    | Asked(p: nat, q: Query)
    | Missed(p: nat, q: Query)
    | Joined(p: nat, q: Query)                     // waits for the call that fetches the same key
    | Fetching(p: nat, q: Query)
    | Fetched(p: nat, q: Query, list: Listing)
    | Holding(p: nat, q: Query, list: Listing, heldAt: nat)
    | Served(p: nat, q: Query, list: Listing, at: nat)
    | Failed(p: nat, q: Query)

  datatype State = State(
    now: nat, redis: map<string, Stored>, local: map<(nat, string), Stored>, requests: seq<Request>)

  const INIT: State := State(0, map[], map[], [])

  datatype Step =
    | Tick(d: nat)
    | Ask(p: nat, q: Query)
    | GetRedis(k: nat, answered: bool)
    | Lookup(k: nat)
    | Read(k: nat)
    | Insert(k: nat)
    | FetchFails(k: nat)
    | Cancel(k: nat)
    | CountFails(k: nat)                           // the total-count query that runs beside the list
    | Store(k: nat, stored: bool)
    | EvictRedis(key: string)
    | EvictLocal(p: nat, key: string)

  function Flight(cfg: Config, p: nat, q: Query): (nat, string) { (p, LocalKey(cfg.plain, q)) }

  predicate Leads(r: Request) { r.Fetching? || r.Fetched? }

  predicate InFlight(cfg: Config, rs: seq<Request>, p: nat, q: Query) {
    exists i :: 0 <= i < |rs| && Leads(rs[i]) && Flight(cfg, rs[i].p, rs[i].q) == Flight(cfg, p, q)
  }

  predicate Enabled(cfg: Config, s: State, step: Step) {
    match step
    case GetRedis(k, _) => k < |s.requests| && s.requests[k].Asked?
    case Lookup(k) => k < |s.requests| && s.requests[k].Missed?
    case Read(k) => k < |s.requests| && s.requests[k].Fetching?
    case Insert(k) => k < |s.requests| && s.requests[k].Fetched? && s.now <= s.requests[k].list.readAt + cfg.toInsert
    case FetchFails(k) => k < |s.requests| && Leads(s.requests[k])
    case Cancel(k) => k < |s.requests|
    case CountFails(k) => k < |s.requests| && s.requests[k].Holding?
    case Store(k, _) => k < |s.requests| && s.requests[k].Holding? && s.now <= s.requests[k].heldAt + cfg.toStore
    case _ => true
  }

  function AfterGet(cfg: Config, s: State, p: nat, q: Query, answered: bool): Request {
    var key := RedisOrderKey(q);
    if answered && key in s.redis && s.now < s.redis[key].storedAt + cfg.redisTtl
    then Served(p, q, s.redis[key].list, s.now)
    else Missed(p, q)
  }

  function AfterLookup(cfg: Config, s: State, p: nat, q: Query): Request {
    var f := Flight(cfg, p, q);
    if f in s.local && s.now < s.local[f].storedAt + LOCAL_TTL then Holding(p, q, s.local[f].list, s.now)
    else if InFlight(cfg, s.requests, p, q) then Joined(p, q)
    else Fetching(p, q)
  }

  /** What waiters are told: the value, the shared error, or to look again because the fetch was dropped. */
  datatype Wake = Give(list: Listing, at: nat) | Fail | Retry

  function Woken(cfg: Config, r: Request, f: (nat, string), wake: Wake): Request {
    if r.Joined? && Flight(cfg, r.p, r.q) == f then
      match wake
      case Give(list, at) => Holding(r.p, r.q, list, at)
      case Fail => Failed(r.p, r.q)
      case Retry => Missed(r.p, r.q)
    else r
  }

  function WakeAll(cfg: Config, rs: seq<Request>, f: (nat, string), wake: Wake): (out: seq<Request>)
    ensures |out| == |rs| && forall i :: 0 <= i < |rs| ==> out[i] == Woken(cfg, rs[i], f, wake)
  {
    seq(|rs|, i requires 0 <= i < |rs| => Woken(cfg, rs[i], f, wake))
  }

  function Apply(cfg: Config, s: State, step: Step): State
    requires Enabled(cfg, s, step)
  {
    match step
    case Tick(d) => s.(now := s.now + d)
    case Ask(p, q) => s.(requests := s.requests + [Asked(p, q)])
    case GetRedis(k, answered) =>
      var r := s.requests[k];
      s.(requests := s.requests[k := AfterGet(cfg, s, r.p, r.q, answered)])
    case Lookup(k) =>
      var r := s.requests[k];
      s.(requests := s.requests[k := AfterLookup(cfg, s, r.p, r.q)])
    case Read(k) =>
      var r := s.requests[k];
      s.(requests := s.requests[k := Fetched(r.p, r.q, Listing(cfg.db(r.q, s.now), s.now))])
    case Insert(k) =>
      var r := s.requests[k];
      var f := Flight(cfg, r.p, r.q);
      var rs := WakeAll(cfg, s.requests, f, Give(r.list, s.now));
      s.(local := s.local[f := Stored(r.q, r.list, s.now)], requests := rs[k := Holding(r.p, r.q, r.list, s.now)])
    case FetchFails(k) =>
      var r := s.requests[k];
      s.(requests := WakeAll(cfg, s.requests, Flight(cfg, r.p, r.q), Fail)[k := Failed(r.p, r.q)])
    case Cancel(k) =>
      var r := s.requests[k];
      var rs := if Leads(r) then WakeAll(cfg, s.requests, Flight(cfg, r.p, r.q), Retry) else s.requests;
      s.(requests := if r.Served? then s.requests else rs[k := Failed(r.p, r.q)])
    case CountFails(k) => s.(requests := s.requests[k := Failed(s.requests[k].p, s.requests[k].q)])
    case Store(k, stored) =>
      var Holding(p, q, list, _) := s.requests[k];
      s.(redis := if stored then s.redis[RedisOrderKey(q) := Stored(q, list, s.now)] else s.redis,
         requests := s.requests[k := Served(p, q, list, s.now)])
    case EvictRedis(key) => s.(redis := s.redis - {key})
    case EvictLocal(p, key) => s.(local := s.local - {(p, key)})
  }

  function Next(cfg: Config, s: State, step: Step): State {
    if Enabled(cfg, s, step) then Apply(cfg, s, step) else s
  }

  /** Runs: steps that are not enabled change nothing. */
  function Run(cfg: Config, s: State, steps: seq<Step>): State
    decreases |steps|
  {
    if steps == [] then s else Run(cfg, Next(cfg, s, steps[0]), steps[1..])
  }

  // ----- Invariant -----

  /** The list is what the database answered to this query when it was read. */
  predicate Genuine(cfg: Config, q: Query, list: Listing) { list.tokens == cfg.db(q, list.readAt) }

  /** Age limits at the three places a list can be in, and when it is served. */
  function HeldWithin(cfg: Config): nat { cfg.toInsert + LOCAL_TTL }

  function StoredWithin(cfg: Config): nat { HeldWithin(cfg) + cfg.toStore }

  function ServedWithin(cfg: Config): nat { StoredWithin(cfg) + cfg.redisTtl }

  predicate RequestInv(cfg: Config, now: nat, r: Request) {
    match r
    case Fetched(_, q, list) => Genuine(cfg, q, list) && list.readAt <= now
    case Holding(_, q, list, heldAt) =>
      Genuine(cfg, q, list) && list.readAt <= heldAt <= now && heldAt < list.readAt + HeldWithin(cfg)
    case Served(_, q, list, at) =>
      Genuine(cfg, q, list) && list.readAt <= at <= now && at < list.readAt + ServedWithin(cfg)
    case _ => true
  }

  predicate LocalInv(cfg: Config, now: nat, f: (nat, string), e: Stored) {
    && f.1 == LocalKey(cfg.plain, e.q) && Genuine(cfg, e.q, e.list)
    && e.list.readAt <= e.storedAt <= now && e.storedAt <= e.list.readAt + cfg.toInsert
  }

  predicate RedisInv(cfg: Config, now: nat, key: string, e: Stored) {
    && key == RedisOrderKey(e.q) && Genuine(cfg, e.q, e.list)
    && e.list.readAt <= e.storedAt <= now && e.storedAt < e.list.readAt + StoredWithin(cfg)
  }

  /** At most one call fetches a key in a process. */
  ghost predicate OneLeader(cfg: Config, rs: seq<Request>) {
    forall i, j :: 0 <= i < |rs| && 0 <= j < |rs| && Leads(rs[i]) && Leads(rs[j]) ==>
      Flight(cfg, rs[i].p, rs[i].q) == Flight(cfg, rs[j].p, rs[j].q) ==> i == j
  }

  ghost predicate Inv(cfg: Config, s: State) {
    && (forall k :: 0 <= k < |s.requests| ==> RequestInv(cfg, s.now, s.requests[k]))
    && (forall f :: f in s.local ==> LocalInv(cfg, s.now, f, s.local[f]))
    && (forall key :: key in s.redis ==> RedisInv(cfg, s.now, key, s.redis[key]))
    && OneLeader(cfg, s.requests)
  }

  lemma RedisHitInv(cfg: Config, s: State, p: nat, q: Query, answered: bool)
    requires Inv(cfg, s)
    ensures RequestInv(cfg, s.now, AfterGet(cfg, s, p, q, answered))
  {
    hide RedisOrderKey, LocalInv;
    var key := RedisOrderKey(q);
    if key in s.redis {
      assert RedisInv(cfg, s.now, key, s.redis[key]);
      RedisOrderKeyInjective(q, s.redis[key].q);
    }
  }

  lemma LocalHitInv(cfg: Config, s: State, p: nat, q: Query)
    requires Inv(cfg, s)
    ensures RequestInv(cfg, s.now, AfterLookup(cfg, s, p, q))
  {
    hide LocalKey, RedisInv;
    var f := Flight(cfg, p, q);
    if f in s.local {
      assert LocalInv(cfg, s.now, f, s.local[f]);
      LocalKeyInjective(cfg.plain, q, s.local[f].q);
    }
  }

  lemma WokenInv(cfg: Config, now: nat, r: Request, p: nat, q: Query, wake: Wake)
    requires RequestInv(cfg, now, r)
    requires wake.Give? ==> RequestInv(cfg, now, Holding(p, q, wake.list, wake.at))
    ensures RequestInv(cfg, now, Woken(cfg, r, Flight(cfg, p, q), wake))
  {
    hide LocalKey;
    if r.Joined? && Flight(cfg, r.p, r.q) == Flight(cfg, p, q) {
      LocalKeyInjective(cfg.plain, r.q, q);
    }
  }

  lemma RequestsKept(cfg: Config, s: State, step: Step, i: nat)
    requires Inv(cfg, s) && Enabled(cfg, s, step) && i < |Apply(cfg, s, step).requests|
    ensures RequestInv(cfg, Apply(cfg, s, step).now, Apply(cfg, s, step).requests[i])
  {
    hide LocalKey, RedisOrderKey, LocalInv, RedisInv, AfterGet, AfterLookup, Woken, OneLeader, Flight;
    assert i < |s.requests| ==> RequestInv(cfg, s.now, s.requests[i]);
    match step
    case GetRedis(k, answered) => RedisHitInv(cfg, s, s.requests[k].p, s.requests[k].q, answered);
    case Lookup(k) => LocalHitInv(cfg, s, s.requests[k].p, s.requests[k].q);
    case Insert(k) =>
      var r := s.requests[k];
      assert RequestInv(cfg, s.now, r);
      WokenInv(cfg, s.now, s.requests[i], r.p, r.q, Give(r.list, s.now));
    case FetchFails(k) => WokenInv(cfg, s.now, s.requests[i], s.requests[k].p, s.requests[k].q, Fail);
    case Cancel(k) => WokenInv(cfg, s.now, s.requests[i], s.requests[k].p, s.requests[k].q, Retry);
    case Store(k, _) => assert RequestInv(cfg, s.now, s.requests[k]);
    case _ =>
  }

  lemma EntriesKept(cfg: Config, s: State, step: Step)
    requires Inv(cfg, s) && Enabled(cfg, s, step)
    ensures var t := Apply(cfg, s, step);
      && (forall f :: f in t.local ==> LocalInv(cfg, t.now, f, t.local[f]))
      && (forall key :: key in t.redis ==> RedisInv(cfg, t.now, key, t.redis[key]))
  {
    hide LocalKey, RedisOrderKey, AfterGet, AfterLookup, Woken, OneLeader;
    var t := Apply(cfg, s, step);
    forall f | f in t.local ensures LocalInv(cfg, t.now, f, t.local[f]) {
      assert f in s.local ==> LocalInv(cfg, s.now, f, s.local[f]);
      if step.Insert? {
        assert RequestInv(cfg, s.now, s.requests[step.k]);
      }
    }
    forall key | key in t.redis ensures RedisInv(cfg, t.now, key, t.redis[key]) {
      assert key in s.redis ==> RedisInv(cfg, s.now, key, s.redis[key]);
      if step.Store? {
        assert RequestInv(cfg, s.now, s.requests[step.k]);
      }
    }
  }

  /** Leaders stay where they are; the only new one is a lookup that found none. */
  lemma LeadersKept(cfg: Config, s: State, step: Step, i: nat)
    requires Enabled(cfg, s, step) && i < |Apply(cfg, s, step).requests| && Leads(Apply(cfg, s, step).requests[i])
    ensures i < |s.requests|
    ensures var t := Apply(cfg, s, step);
      && t.requests[i].p == s.requests[i].p && t.requests[i].q == s.requests[i].q
      && (Leads(s.requests[i]) ||
          (step == Lookup(i) && !InFlight(cfg, s.requests, s.requests[i].p, s.requests[i].q)))
  {
    hide LocalKey, RedisOrderKey, InFlight;
  }

  lemma OneLeaderKept(cfg: Config, s: State, step: Step)
    requires OneLeader(cfg, s.requests) && Enabled(cfg, s, step)
    ensures OneLeader(cfg, Apply(cfg, s, step).requests)
  {
    hide LocalKey, Apply, Enabled, Leads;
    var rs := Apply(cfg, s, step).requests;
    forall i, j | 0 <= i < |rs| && 0 <= j < |rs| && Leads(rs[i]) && Leads(rs[j])
                  && Flight(cfg, rs[i].p, rs[i].q) == Flight(cfg, rs[j].p, rs[j].q)
      ensures i == j
    {
      LeadersKept(cfg, s, step, i);
      LeadersKept(cfg, s, step, j);
    }
  }

  lemma StepKeepsInv(cfg: Config, s: State, step: Step)
    requires Inv(cfg, s) && Enabled(cfg, s, step)
    ensures Inv(cfg, Apply(cfg, s, step))
  {
    hide Apply, Enabled, RequestInv, LocalInv, RedisInv, OneLeader;
    var t := Apply(cfg, s, step);
    forall i | 0 <= i < |t.requests| ensures RequestInv(cfg, t.now, t.requests[i]) {
      RequestsKept(cfg, s, step, i);
    }
    EntriesKept(cfg, s, step);
    OneLeaderKept(cfg, s, step);
  }

  lemma {:induction false} RunKeepsInv(cfg: Config, s: State, steps: seq<Step>)
    requires Inv(cfg, s)
    ensures Inv(cfg, Run(cfg, s, steps))
    decreases |steps|
  {
    hide Inv, Apply, Enabled;
    if steps == [] {
    } else {
      if Enabled(cfg, s, steps[0]) {
        StepKeepsInv(cfg, s, steps[0]);
      }
      RunKeepsInv(cfg, Next(cfg, s, steps[0]), steps[1..]);
    }
  }

  /**
   Main result. Over every run of every number of processes, a list served at some time is the
   database's answer to the very same query, read less than the Redis TTL plus 1000 ms plus the
   in-flight delays earlier; and no process fetches one query twice at a time.
   */
  lemma ServedListsAreFresh(cfg: Config, steps: seq<Step>)
    ensures var s := Run(cfg, INIT, steps);
      && (forall k :: 0 <= k < |s.requests| && s.requests[k].Served? ==>
            var Served(_, q, list, at) := s.requests[k];
            && list.tokens == cfg.db(q, list.readAt)
            && list.readAt <= at < list.readAt + cfg.redisTtl + 1_000 + cfg.toInsert + cfg.toStore)
      && (forall i, j :: 0 <= i < j < |s.requests| && (s.requests[i].Fetching? || s.requests[i].Fetched?)
                         && (s.requests[j].Fetching? || s.requests[j].Fetched?) ==>
            s.requests[i].p != s.requests[j].p || s.requests[i].q != s.requests[j].q)
  {
    hide Run, LocalKey;
    RunKeepsInv(cfg, INIT, steps);
    var s := Run(cfg, INIT, steps);
    forall k | 0 <= k < |s.requests| && s.requests[k].Served?
      ensures var Served(_, q, list, at) := s.requests[k];
        && list.tokens == cfg.db(q, list.readAt)
        && list.readAt <= at < list.readAt + cfg.redisTtl + 1_000 + cfg.toInsert + cfg.toStore
    {
      assert RequestInv(cfg, s.now, s.requests[k]);
    }
  }

  // ----- Waiters -----

  /** Whoever waits, waits for a call that is still fetching its key. */
  ghost predicate NoneStranded(cfg: Config, rs: seq<Request>) {
    forall i :: 0 <= i < |rs| && rs[i].Joined? ==> InFlight(cfg, rs, rs[i].p, rs[i].q)
  }

  lemma StillInFlight(cfg: Config, s: State, step: Step, i: nat)
    requires NoneStranded(cfg, s.requests) && Enabled(cfg, s, step)
    requires i < |Apply(cfg, s, step).requests| && Apply(cfg, s, step).requests[i].Joined?
    ensures var rs := Apply(cfg, s, step).requests; InFlight(cfg, rs, rs[i].p, rs[i].q)
  {
    hide LocalKey, RedisOrderKey;
    var rs := Apply(cfg, s, step).requests;
    assert i < |s.requests| && rs[i].p == s.requests[i].p && rs[i].q == s.requests[i].q;
    assert InFlight(cfg, s.requests, rs[i].p, rs[i].q);
    var l :| 0 <= l < |s.requests| && Leads(s.requests[l])
             && Flight(cfg, s.requests[l].p, s.requests[l].q) == Flight(cfg, rs[i].p, rs[i].q);
    assert Leads(rs[l]) && Flight(cfg, rs[l].p, rs[l].q) == Flight(cfg, rs[i].p, rs[i].q);
  }

  lemma {:induction false} RunStrandsNone(cfg: Config, s: State, steps: seq<Step>)
    requires NoneStranded(cfg, s.requests)
    ensures NoneStranded(cfg, Run(cfg, s, steps).requests)
    decreases |steps|
  {
    hide Apply, Enabled, InFlight;
    if steps == [] {
    } else {
      var t := Next(cfg, s, steps[0]);
      if Enabled(cfg, s, steps[0]) {
        forall i | 0 <= i < |t.requests| && t.requests[i].Joined?
          ensures InFlight(cfg, t.requests, t.requests[i].p, t.requests[i].q)
        {
          StillInFlight(cfg, s, steps[0], i);
        }
      }
      RunStrandsNone(cfg, t, steps[1..]);
    }
  }

  /** No wake-up is lost: over every run each waiter has a call in flight that it waits for. */
  lemma NobodyIsStranded(cfg: Config, steps: seq<Step>)
    ensures NoneStranded(cfg, Run(cfg, INIT, steps).requests)
  {
    NobodyYet(cfg);
    RunStrandsNone(cfg, INIT, steps);
  }

  predicate WaitsWith(r: Request, leader: Request) {
    Leads(leader) && r.Joined? && r.p == leader.p && r.q == leader.q
  }

  /** The end of a fetch reaches every waiter: its list, its error, or the need to look again. */
  lemma OutcomeIsShared(cfg: Config, s: State, k: nat, i: nat)
    requires k < |s.requests| && i < |s.requests| && WaitsWith(s.requests[i], s.requests[k])
    ensures Apply(cfg, s, FetchFails(k)).requests[i].Failed?
    ensures Apply(cfg, s, Cancel(k)).requests[i].Missed?
    ensures Enabled(cfg, s, Insert(k)) ==>
              var leader := s.requests[k];
              Apply(cfg, s, Insert(k)).requests[i] == Holding(leader.p, leader.q, leader.list, s.now)
  {
    hide LocalKey, RedisOrderKey;
    assert i != k;
  }

  lemma NobodyYet(cfg: Config)
    ensures NoneStranded(cfg, INIT.requests)
  {
  }

  // ----- The bound is attained -----

  lemma RunCons(cfg: Config, s: State, step: Step, steps: seq<Step>)
    ensures Run(cfg, s, [step] + steps) == Run(cfg, Next(cfg, s, step), steps)
  {
    assert ([step] + steps)[1..] == steps;
  }

  lemma RunNone(cfg: Config, s: State)
    ensures Run(cfg, s, []) == s
  {
  }

  lemma {:induction false} RunConcat(cfg: Config, s: State, a: seq<Step>, b: seq<Step>)
    ensures Run(cfg, s, a + b) == Run(cfg, Run(cfg, s, a), b)
    decreases |a|
  {
    if a == [] {
      assert a + b == b;
    } else {
      assert (a + b)[1..] == a[1..] + b;
      RunConcat(cfg, Next(cfg, s, a[0]), a[1..], b);
    }
  }

  function FetchSteps(cfg: Config, q: Query): seq<Step> {
    [Ask(0, q)] + ([GetRedis(0, true)] + ([Lookup(0)] + ([Read(0)] + ([Tick(cfg.toInsert)] + ([Insert(0)] + [])))))
  }

  /** A fetch whose insertion is as late as allowed. */
  lemma SlowFetch(cfg: Config, q: Query)
    ensures var list := Listing(cfg.db(q, 0), 0);
            Run(cfg, INIT, FetchSteps(cfg, q))
            == State(cfg.toInsert, map[], map[Flight(cfg, 0, q) := Stored(q, list, cfg.toInsert)],
                     [Holding(0, q, list, cfg.toInsert)])
  {
    hide LocalKey, RedisOrderKey;
    var list := Listing(cfg.db(q, 0), 0);
    var s1 := State(0, map[], map[], [Asked(0, q)]);
    var s2 := State(0, map[], map[], [Missed(0, q)]);
    var s3 := State(0, map[], map[], [Fetching(0, q)]);
    var s4 := State(0, map[], map[], [Fetched(0, q, list)]);
    var s5 := s4.(now := cfg.toInsert);
    var last := [Tick(cfg.toInsert)] + ([Insert(0)] + []);
    RunCons(cfg, INIT, Ask(0, q), [GetRedis(0, true)] + ([Lookup(0)] + ([Read(0)] + last)));
    RunCons(cfg, s1, GetRedis(0, true), [Lookup(0)] + ([Read(0)] + ([Tick(cfg.toInsert)] + ([Insert(0)] + []))));
    RunCons(cfg, s2, Lookup(0), [Read(0)] + ([Tick(cfg.toInsert)] + ([Insert(0)] + [])));
    RunCons(cfg, s3, Read(0), [Tick(cfg.toInsert)] + ([Insert(0)] + []));
    RunCons(cfg, s4, Tick(cfg.toInsert), [Insert(0)] + []);
    RunCons(cfg, s5, Insert(0), []);
    assert Next(cfg, INIT, Ask(0, q)) == s1 && Next(cfg, s1, GetRedis(0, true)) == s2;
    assert Next(cfg, s2, Lookup(0)) == s3 && Next(cfg, s3, Read(0)) == s4 && Next(cfg, s4, Tick(cfg.toInsert)) == s5;
    assert Next(cfg, s5, Insert(0)).requests == [Holding(0, q, list, cfg.toInsert)];
  }

  function HitSteps(q: Query): seq<Step> {
    [Tick(LOCAL_TTL - 1)] + ([Ask(0, q)] + ([GetRedis(1, true)] + ([Lookup(1)] + [])))
  }

  /** A second caller takes the list in its last local millisecond. */
  lemma LateHit(cfg: Config, s: State, q: Query, list: Listing)
    requires s.redis == map[] && s.local == map[Flight(cfg, 0, q) := Stored(q, list, s.now)] && |s.requests| == 1
    ensures var late := s.now + LOCAL_TTL - 1;
            Run(cfg, s, HitSteps(q)) == s.(now := late, requests := s.requests + [Holding(0, q, list, late)])
  {
    hide LocalKey, RedisOrderKey, Run;
    var s1 := s.(now := s.now + LOCAL_TTL - 1);
    var s2 := s1.(requests := s.requests + [Asked(0, q)]);
    var s3 := s1.(requests := s.requests + [Missed(0, q)]);
    var s4 := s1.(requests := s.requests + [Holding(0, q, list, s1.now)]);
    RunCons(cfg, s, Tick(LOCAL_TTL - 1), [Ask(0, q)] + ([GetRedis(1, true)] + ([Lookup(1)] + [])));
    RunCons(cfg, s1, Ask(0, q), [GetRedis(1, true)] + ([Lookup(1)] + []));
    RunCons(cfg, s2, GetRedis(1, true), [Lookup(1)] + []);
    RunCons(cfg, s3, Lookup(1), []);
    RunNone(cfg, Next(cfg, s3, Lookup(1)));
    assert Next(cfg, s2, GetRedis(1, true)).requests == s3.requests;
    assert Next(cfg, s3, Lookup(1)).requests == s4.requests;
  }

  /** It stores the list in Redis as late as allowed. */
  lemma LateStore(cfg: Config, s: State, q: Query, list: Listing)
    requires s.redis == map[] && |s.requests| == 2 && s.requests[1] == Holding(0, q, list, s.now)
    ensures var t, late := Run(cfg, s, [Tick(cfg.toStore)] + ([Store(1, true)] + [])), s.now + cfg.toStore;
            t.now == late && |t.requests| == 2 && t.redis == map[RedisOrderKey(q) := Stored(q, list, late)]
  {
    hide LocalKey, RedisOrderKey;
    RunCons(cfg, s, Tick(cfg.toStore), [Store(1, true)] + []);
    RunCons(cfg, s.(now := s.now + cfg.toStore), Store(1, true), []);
  }

  /** The two tiers really add up: some run serves a list 2 ms short of the bound. */
  lemma BoundIsAttained(cfg: Config, q: Query)
    requires cfg.redisTtl > 0
    ensures exists steps: seq<Step> :: var s := Run(cfg, INIT, steps);
              |s.requests| == 3 && s.requests[2].Served? &&
              s.requests[2].at + 2 == s.requests[2].list.readAt + cfg.redisTtl + 1_000 + cfg.toInsert + cfg.toStore
  {
    hide LocalKey, RedisOrderKey, FetchSteps, HitSteps, Run, Next, Apply, Enabled;
    var store := [Tick(cfg.toStore)] + ([Store(1, true)] + []);
    var last := [Tick(cfg.redisTtl - 1)] + ([Ask(1, q)] + ([GetRedis(2, true)] + []));
    var list := Listing(cfg.db(q, 0), 0);
    var s := Run(cfg, INIT, FetchSteps(cfg, q));
    var h := Run(cfg, s, HitSteps(q));
    var t := Run(cfg, h, store);
    SlowFetch(cfg, q);
    LateHit(cfg, s, q, list);
    LateStore(cfg, h, q, list);
    LastHit(cfg, t, q, list);
    RunConcat(cfg, INIT, FetchSteps(cfg, q), HitSteps(q) + (store + last));
    RunConcat(cfg, s, HitSteps(q), store + last);
    RunConcat(cfg, h, store, last);
    var steps := FetchSteps(cfg, q) + (HitSteps(q) + (store + last));
    var end := Run(cfg, INIT, steps);
    assert end.requests[2] == Served(1, q, list, t.now + cfg.redisTtl - 1);
  }

  /** A caller of another process is served from Redis in the entry's last millisecond. */
  lemma LastHit(cfg: Config, t: State, q: Query, list: Listing)
    requires cfg.redisTtl > 0 && |t.requests| == 2 && t.redis == map[RedisOrderKey(q) := Stored(q, list, t.now)]
    ensures var end := Run(cfg, t, [Tick(cfg.redisTtl - 1)] + ([Ask(1, q)] + ([GetRedis(2, true)] + [])));
            |end.requests| == 3 && end.requests[2] == Served(1, q, list, t.now + cfg.redisTtl - 1)
  {
    hide LocalKey, RedisOrderKey;
    var t1 := t.(now := t.now + cfg.redisTtl - 1);
    var t2 := t1.(requests := t.requests + [Asked(1, q)]);
    RunCons(cfg, t, Tick(cfg.redisTtl - 1), [Ask(1, q)] + ([GetRedis(2, true)] + []));
    RunCons(cfg, t1, Ask(1, q), [GetRedis(2, true)] + []);
    RunCons(cfg, t2, GetRedis(2, true), []);
  }

  // ----- The functions as the source writes them -----

  class OrderService {
    const cfg: Config
    var now: nat
    var redis: map<string, Stored>
    var local: map<(nat, string), Stored>

    ghost predicate Valid()
      reads this
    {
      Inv(cfg, State(now, redis, local, []))
    }

    constructor (cfg: Config)
      ensures Valid() && this.cfg == cfg && redis == map[] && local == map[]
    {
      this.cfg := cfg;
      now, redis, local := 0, map[], map[];
    }

    /** `with_cache` for one caller: a live entry, or a fetch whose answer is inserted. */
    method WithCache(q: Query, dbUp: bool) returns (r: Option<Listing>)
      requires Valid()
      modifies this`local
      ensures Valid()
      ensures var f := (0, LocalKey(cfg.plain, q));
              var hit := f in old(local) && now < old(local)[f].storedAt + 1_000;
        && (r.Some? <==> hit || dbUp)
        && (hit ==> r == Some(old(local)[f].list) && local == old(local))
        && (!hit && dbUp ==>
              r.value == Listing(cfg.db(q, now), now) && local == old(local)[f := Stored(q, r.value, now)])
        && (!hit && !dbUp ==> local == old(local))
      ensures r.Some? ==>
                && r.value.tokens == cfg.db(q, r.value.readAt)
                && r.value.readAt <= now < r.value.readAt + 1_000 + cfg.toInsert
    {
      hide LocalKey, RedisInv;
      var f := Flight(cfg, 0, q);
      if f in local && now < local[f].storedAt + LOCAL_TTL {
        assert LocalInv(cfg, now, f, local[f]);
        LocalKeyInjective(cfg.plain, q, local[f].q);
        return Some(local[f].list);
      }
      if !dbUp {
        return None;
      }
      var list := Listing(cfg.db(q, now), now);
      local := local[f := Stored(q, list, now)];
      r := Some(list);
    }

    /** `get_order` of one caller: Redis, else the list and the count together, then back into Redis. */
    method GetOrder(q: Query, redisUp: bool, dbUp: bool, countUp: bool, storeUp: bool) returns (r: Option<Listing>)
      requires Valid()
      modifies this`redis, this`local
      ensures Valid()
      ensures r.Some? ==>
                && r.value.tokens == cfg.db(q, r.value.readAt)
                && r.value.readAt <= now < r.value.readAt + cfg.redisTtl + 1_000 + cfg.toInsert + cfg.toStore
      ensures var key, f := RedisOrderKey(q), (0, LocalKey(cfg.plain, q));
              var hit := redisUp && key in old(redis) && now < old(redis)[key].storedAt + cfg.redisTtl;
              var near := f in old(local) && now < old(local)[f].storedAt + 1_000;
              var read := Listing(cfg.db(q, now), now);
        && (r.Some? <==> hit || ((near || dbUp) && countUp))
        && (r.Some? ==> r.value == if hit then old(redis)[key].list else if near then old(local)[f].list else read)
        && redis == (if r.Some? && !hit && storeUp then old(redis)[key := Stored(q, r.value, now)] else old(redis))
        && local == (if !hit && !near && dbUp then old(local)[f := Stored(q, read, now)] else old(local))
    {
      hide LocalKey, RedisOrderKey;
      var key := RedisOrderKey(q);
      if redisUp && key in redis && now < redis[key].storedAt + cfg.redisTtl {
        assert RedisInv(cfg, now, key, redis[key]);
        RedisOrderKeyInjective(q, redis[key].q);
        return Some(redis[key].list);
      }
      r := WithCache(q, dbUp);
      if r.None? || !countUp {
        return None;
      }
      if storeUp {
        redis := redis[key := Stored(q, r.value, now)];
      }
    }
  }
}
