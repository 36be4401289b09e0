/**
 Login sessions over Postgres with a read-through Redis cache (src/services/auth/mod.rs,
 src/controllers/auth/session.rs, src/middleware.rs). Logins, resolves that fill the cache, logouts
 and expiry interleave at their single commands.
 */
module Session {
  import opened Prelude

  type Id = string
  type Address = string

  /** A row of `account_session`. */
  datatype SessionRow = SessionRow(id: Id, account: Address)

  /** One call of `resolve_session_address`. */
  datatype Resolver =
    | Asked(id: Id)
    | Missed(id: Id)
    | Found(id: Id, address: Address)      // read from Postgres, about to be cached
    | Resolved(id: Id, address: Address)
    | Rejected(id: Id)

  /**
   `bound` is history: the address each session id was created for. `toRows` and `toRedis` are the
   two writes of logins that are still under way.
   */
  datatype State = State(
    redis: map<Id, Address>, rows: set<SessionRow>, resolvers: seq<Resolver>,
    bound: map<Id, Address>, toRows: set<Id>, toRedis: set<Id>)

  const INIT: State := State(map[], {}, [], map[], {}, {})

  datatype Step =
    | Login(id: Id, address: Address)
    | WriteRow(id: Id)
    | WriteRedis(id: Id)
    | Abandon(id: Id)                      // the other write failed, or the request was dropped
    | Resolve(id: Id)
    | GetRedis(k: nat, answered: bool)     // any Redis error counts as a miss
    | ReadRow(k: nat, answered: bool)
    | Recache(k: nat, executed: bool, delivered: bool)
    | LogoutRedis(id: Id)                  // DEL; also expiry, eviction and flush
    | LogoutRow(id: Id)

  /** INSERT .. ON CONFLICT (account_id) DO UPDATE SET id */
  function Upsert(rows: set<SessionRow>, id: Id, a: Address): set<SessionRow> {
    (set r | r in rows && r.account != a) + {SessionRow(id, a)}
  }

  function Without(rows: set<SessionRow>, id: Id): set<SessionRow> { set r | r in rows && r.id != id }

  predicate HasRow(rows: set<SessionRow>, id: Id) { exists r :: r in rows && r.id == id }

  predicate Enabled(s: State, step: Step) {
    match step
    case Login(id, _) => id !in s.bound                       // ids are fresh
    case WriteRow(id) => id in s.toRows && id in s.bound
    case WriteRedis(id) => id in s.toRedis && id in s.bound
    case GetRedis(k, _) => k < |s.resolvers| && s.resolvers[k].Asked?
    case ReadRow(k, _) => k < |s.resolvers| && s.resolvers[k].Missed?
    case Recache(k, _, _) => k < |s.resolvers| && s.resolvers[k].Found?
    case _ => true
  }

  function AfterGet(s: State, id: Id, answered: bool): Resolver {
    if answered && id in s.redis then Resolved(id, s.redis[id]) else Missed(id)
  }

  ghost function AfterRead(s: State, id: Id, answered: bool): Resolver {
    if answered && HasRow(s.rows, id) then
      var r :| r in s.rows && r.id == id;
      Found(id, r.account)
    else Rejected(id)
  }

  ghost function Apply(s: State, step: Step): State
    requires Enabled(s, step)
  {
    match step
    case Login(id, a) => s.(bound := s.bound[id := a], toRows := s.toRows + {id}, toRedis := s.toRedis + {id})
    case WriteRow(id) => s.(rows := Upsert(s.rows, id, s.bound[id]), toRows := s.toRows - {id})
    case WriteRedis(id) => s.(redis := s.redis[id := s.bound[id]], toRedis := s.toRedis - {id})
    case Abandon(id) => s.(toRows := s.toRows - {id}, toRedis := s.toRedis - {id})
    case Resolve(id) => s.(resolvers := s.resolvers + [Asked(id)])
    case GetRedis(k, answered) => s.(resolvers := s.resolvers[k := AfterGet(s, s.resolvers[k].id, answered)])
    case ReadRow(k, answered) => s.(resolvers := s.resolvers[k := AfterRead(s, s.resolvers[k].id, answered)])
    case Recache(k, executed, delivered) =>
      var Found(id, a) := s.resolvers[k];
      s.(redis := if executed then s.redis[id := a] else s.redis,
         resolvers := s.resolvers[k := if executed && delivered then Resolved(id, a) else Rejected(id)])
    case LogoutRedis(id) => s.(redis := s.redis - {id})
    case LogoutRow(id) => s.(rows := Without(s.rows, id))
  }

  ghost function Next(s: State, step: Step): State { if Enabled(s, step) then Apply(s, step) else s }

  /** Runs: steps that are not enabled change nothing. */
  ghost function Run(s: State, steps: seq<Step>): State
    decreases |steps|
  {
    if steps == [] then s else Run(Next(s, steps[0]), steps[1..])
  }

  /** A login's row takes the place of its account's own row alone, and a logout's delete the row with its id. */
  lemma RowFrames(s: State, id: Id, r: SessionRow)
    ensures Enabled(s, WriteRow(id)) ==>
              var a, t := s.bound[id], Apply(s, WriteRow(id));
              && (r.account != a ==> (r in t.rows <==> r in s.rows))
              && (r.account == a ==> (r in t.rows <==> r.id == id))
              && t.redis == s.redis && t.resolvers == s.resolvers && t.bound == s.bound
    ensures var t := Apply(s, LogoutRow(id));
            && (r in t.rows <==> r in s.rows && r.id != id)
            && t.redis == s.redis && t.resolvers == s.resolvers && t.bound == s.bound
  {
    if Enabled(s, WriteRow(id)) {
      assert r == SessionRow(r.id, r.account);
    }
  }

  // ----- Invariant -----

  predicate BoundTo(bound: map<Id, Address>, id: Id, a: Address) { id in bound && bound[id] == a }

  predicate ResolverInv(bound: map<Id, Address>, r: Resolver) {
    (r.Found? || r.Resolved?) ==> BoundTo(bound, r.id, r.address)
  }

  ghost predicate RowsInv(rows: set<SessionRow>, bound: map<Id, Address>) {
    && (forall r :: r in rows ==> BoundTo(bound, r.id, r.account))
    && (forall r, q :: r in rows && q in rows && r.account == q.account ==> r == q)
  }

  ghost predicate RedisInv(redis: map<Id, Address>, bound: map<Id, Address>) {
    forall id :: id in redis ==> BoundTo(bound, id, redis[id])
  }

  ghost predicate Inv(s: State) {
    && RowsInv(s.rows, s.bound) && RedisInv(s.redis, s.bound)
    && (forall k :: 0 <= k < |s.resolvers| ==> ResolverInv(s.bound, s.resolvers[k]))
  }

  lemma UpsertKeepsRows(rows: set<SessionRow>, bound: map<Id, Address>, id: Id)
    requires RowsInv(rows, bound) && id in bound
    ensures RowsInv(Upsert(rows, id, bound[id]), bound)
  {
  }

  lemma StoresKept(s: State, step: Step)
    requires Inv(s) && Enabled(s, step)
    ensures var t := Apply(s, step); RowsInv(t.rows, t.bound) && RedisInv(t.redis, t.bound)
  {
    if step.WriteRow? {
      UpsertKeepsRows(s.rows, s.bound, step.id);
    } else if step.Recache? {
      assert ResolverInv(s.bound, s.resolvers[step.k]);
    }
  }

  lemma ResolversKept(s: State, step: Step, k: nat)
    requires Inv(s) && Enabled(s, step) && k < |Apply(s, step).resolvers|
    ensures ResolverInv(Apply(s, step).bound, Apply(s, step).resolvers[k])
  {
    hide Upsert, Without;
    assert k < |s.resolvers| ==> ResolverInv(s.bound, s.resolvers[k]);
  }

  lemma StepKeepsInv(s: State, step: Step)
    requires Inv(s) && Enabled(s, step)
    ensures Inv(Apply(s, step))
  {
    hide Apply, Enabled, RowsInv, RedisInv, ResolverInv;
    StoresKept(s, step);
    var t := Apply(s, step);
    forall k | 0 <= k < |t.resolvers| ensures ResolverInv(t.bound, t.resolvers[k]) {
      ResolversKept(s, step, k);
    }
  }

  lemma {:induction false} RunKeepsInv(s: State, steps: seq<Step>)
    requires Inv(s)
    ensures Inv(Run(s, steps))
    decreases |steps|
  {
    hide Inv, Apply, Enabled;
    if steps == [] {
    } else {
      if Enabled(s, steps[0]) {
        StepKeepsInv(s, steps[0]);
      }
      RunKeepsInv(Next(s, steps[0]), steps[1..]);
    }
  }

  /** The run's one login with this id is for this address; later ones with it are not enabled. */
  ghost predicate LoggedIn(steps: seq<Step>, id: Id, a: Address) {
    exists i :: 0 <= i < |steps| && steps[i] == Login(id, a) && forall j :: 0 <= j < i ==> !IsLogin(steps[j], id)
  }

  predicate IsLogin(step: Step, id: Id) { step.Login? && step.id == id }

  lemma {:induction false} RunSnoc(steps: seq<Step>)
    requires steps != []
    ensures var last := |steps| - 1; Run(INIT, steps) == Next(Run(INIT, steps[..last]), steps[last])
  {
    hide Next;
    var last := |steps| - 1;
    assert steps == steps[..last] + ([steps[last]] + []);
    RunConcat(INIT, steps[..last], [steps[last]] + []);
    RunCons(Run(INIT, steps[..last]), steps[last], []);
  }

  lemma BoundStep(s: State, step: Step, id: Id)
    ensures id in Next(s, step).bound <==> id in s.bound || IsLogin(step, id)
    ensures id in Next(s, step).bound ==>
              Next(s, step).bound[id] == if id in s.bound then s.bound[id] else step.address
  {
    hide Upsert, Without, HasRow;
  }

  lemma {:induction false} BoundByLogin(steps: seq<Step>, id: Id)
    ensures var bound := Run(INIT, steps).bound;
      && (id in bound <==> exists i :: 0 <= i < |steps| && IsLogin(steps[i], id))
      && (id in bound ==> LoggedIn(steps, id, bound[id]))
    decreases |steps|
  {
    hide Run, Next;
    if steps == [] {
      RunNone(INIT);
    } else {
      var last := |steps| - 1;
      var before, step := steps[..last], steps[last];
      RunSnoc(steps);
      BoundByLogin(before, id);
      BoundStep(Run(INIT, before), step, id);
      if id in Run(INIT, before).bound {
        var i :| 0 <= i < last && before[i] == Login(id, Run(INIT, before).bound[id])
                 && forall j :: 0 <= j < i ==> !IsLogin(before[j], id);
        assert steps[i] == before[i] && forall j :: 0 <= j < i ==> steps[j] == before[j];
      } else {
        forall j | 0 <= j < last ensures !IsLogin(steps[j], id) {
          assert before[j] == steps[j];
        }
        assert IsLogin(step, id) ==> steps[last] == Login(id, step.address);
      }
    }
  }

  /**
   Main result. Over every run a session id resolves only to the address of the login that created it,
   and Postgres holds at most one session per account, each of them that of such a login.
   */
  lemma ResolvesToOwner(steps: seq<Step>)
    ensures var s := Run(INIT, steps);
      && (forall k :: 0 <= k < |s.resolvers| && s.resolvers[k].Resolved? ==>
            LoggedIn(steps, s.resolvers[k].id, s.resolvers[k].address))
      && (forall r :: r in s.rows ==> LoggedIn(steps, r.id, r.account))
      && (forall r, q :: r in s.rows && q in s.rows && r.account == q.account ==> r == q)
  {
    hide Run, LoggedIn;
    RunKeepsInv(INIT, steps);
    var s := Run(INIT, steps);
    forall k | 0 <= k < |s.resolvers| && s.resolvers[k].Resolved?
      ensures LoggedIn(steps, s.resolvers[k].id, s.resolvers[k].address)
    {
      assert ResolverInv(s.bound, s.resolvers[k]);
      BoundByLogin(steps, s.resolvers[k].id);
    }
    forall r | r in s.rows ensures LoggedIn(steps, r.id, r.account) {
      BoundByLogin(steps, r.id);
    }
  }

  // ----- When a session is over -----

  /** Nowhere stored, and no login write or resolve under way that would store it again. */
  ghost predicate Over(s: State, id: Id) {
    && id in s.bound && id !in s.redis && !HasRow(s.rows, id) && id !in s.toRows && id !in s.toRedis
    && (forall k :: 0 <= k < |s.resolvers| && s.resolvers[k].id == id ==> !s.resolvers[k].Found?)
  }

  predicate ResolvedAt(s: State, k: nat, id: Id) {
    k < |s.resolvers| && s.resolvers[k].Resolved? && s.resolvers[k].id == id
  }

  ghost predicate NewlyResolved(s: State, t: State, id: Id) {
    exists k: nat :: ResolvedAt(t, k, id) && !ResolvedAt(s, k, id)
  }

  ghost predicate CanResolve(s: State, id: Id) { exists steps: seq<Step> :: NewlyResolved(s, Run(s, steps), id) }

  lemma OverResolvers(s: State, step: Step, id: Id, k: nat)
    requires Over(s, id) && Enabled(s, step)
    requires k < |Apply(s, step).resolvers| && Apply(s, step).resolvers[k].id == id
    ensures var t := Apply(s, step); !t.resolvers[k].Found? && (ResolvedAt(t, k, id) ==> ResolvedAt(s, k, id))
  {
    hide Upsert, Without, HasRow;
  }

  lemma OverStores(s: State, step: Step, id: Id)
    requires Over(s, id) && Enabled(s, step)
    ensures var t := Apply(s, step);
            id in t.bound && id !in t.redis && !HasRow(t.rows, id) && id !in t.toRows && id !in t.toRedis
  {
    if step.WriteRow? || step.LogoutRow? {
      forall r | r in Apply(s, step).rows ensures r.id != id {
        assert r in s.rows || r.id == step.id;
      }
    }
  }

  lemma OverStep(s: State, step: Step, id: Id)
    requires Over(s, id) && Enabled(s, step)
    ensures Over(Apply(s, step), id) && !NewlyResolved(s, Apply(s, step), id)
  {
    hide Apply, Enabled, HasRow;
    OverStores(s, step, id);
    var t := Apply(s, step);
    forall k: nat | k < |t.resolvers| && t.resolvers[k].id == id
      ensures !t.resolvers[k].Found? && (ResolvedAt(t, k, id) ==> ResolvedAt(s, k, id))
    {
      OverResolvers(s, step, id, k);
    }
  }

  lemma {:induction false} OverForGood(s: State, steps: seq<Step>, id: Id)
    requires Over(s, id)
    ensures Over(Run(s, steps), id) && !NewlyResolved(s, Run(s, steps), id)
    decreases |steps|
  {
    hide Over, Apply, Enabled;
    if steps == [] {
    } else {
      var t, u := Next(s, steps[0]), Run(s, steps);
      if Enabled(s, steps[0]) {
        OverStep(s, steps[0], id);
      }
      OverForGood(t, steps[1..], id);
      forall k: nat | ResolvedAt(u, k, id) ensures ResolvedAt(s, k, id) {
        assert ResolvedAt(t, k, id);
      }
    }
  }

  lemma RunCons(s: State, step: Step, steps: seq<Step>)
    ensures Run(s, [step] + steps) == Run(Next(s, step), steps)
  {
    assert ([step] + steps)[1..] == steps;
  }

  lemma RunNone(s: State)
    ensures Run(s, []) == s
  {
  }

  lemma CachedResolves(s: State, id: Id)
    requires id in s.redis || (id in s.toRedis && id in s.bound)
    ensures CanResolve(s, id)
  {
    var k := |s.resolvers|;
    var s1 := Next(s, WriteRedis(id));
    var s2 := Next(s1, Resolve(id));
    RunCons(s, WriteRedis(id), [Resolve(id)] + ([GetRedis(k, true)] + []));
    RunCons(s1, Resolve(id), [GetRedis(k, true)] + []);
    RunCons(s2, GetRedis(k, true), []);
    var t := Run(s, [WriteRedis(id)] + ([Resolve(id)] + ([GetRedis(k, true)] + [])));
    assert s2.resolvers[k] == Asked(id) && id in s2.redis;
    assert ResolvedAt(t, k, id);
    assert NewlyResolved(s, t, id);
  }

  lemma FoundResolves(s: State, id: Id, k: nat)
    requires k < |s.resolvers| && s.resolvers[k].Found? && s.resolvers[k].id == id
    ensures CanResolve(s, id)
  {
    RunCons(s, Recache(k, true, true), []);
    var t := Run(s, [Recache(k, true, true)] + []);
    assert ResolvedAt(t, k, id);
    assert NewlyResolved(s, t, id);
  }

  lemma {:induction false} RunConcat(s: State, a: seq<Step>, b: seq<Step>)
    ensures Run(s, a + b) == Run(Run(s, a), b)
    decreases |a|
  {
    if a == [] {
      assert a + b == b;
    } else {
      assert (a + b)[1..] == a[1..] + b;
      RunConcat(Next(s, a[0]), a[1..], b);
    }
  }

  lemma StoredResolves(s: State, id: Id)
    requires HasRow(s.rows, id) || (id in s.toRows && id in s.bound)
    ensures CanResolve(s, id)
  {
    hide Upsert;
    var k := |s.resolvers|;
    var s1 := Next(s, WriteRow(id));
    assert HasRow(s1.rows, id) by {
      WriteRowStores(s, id);
    }
    var s2 := Next(s1, Resolve(id));
    var s3 := Next(s2, GetRedis(k, false));
    var s4 := Next(s3, ReadRow(k, true));
    var s5 := Next(s4, Recache(k, true, true));
    var last := [ReadRow(k, true)] + ([Recache(k, true, true)] + []);
    RunCons(s, WriteRow(id), [Resolve(id)] + ([GetRedis(k, false)] + last));
    RunCons(s1, Resolve(id), [GetRedis(k, false)] + ([ReadRow(k, true)] + ([Recache(k, true, true)] + [])));
    RunCons(s2, GetRedis(k, false), [ReadRow(k, true)] + ([Recache(k, true, true)] + []));
    RunCons(s3, ReadRow(k, true), [Recache(k, true, true)] + []);
    RunCons(s4, Recache(k, true, true), []);
    assert s3.resolvers[k] == Missed(id) && s3.rows == s1.rows;
    assert ResolvedAt(s5, k, id);
    assert NewlyResolved(s, s5, id);
  }

  lemma WriteRowStores(s: State, id: Id)
    requires HasRow(s.rows, id) || (id in s.toRows && id in s.bound)
    ensures HasRow(Next(s, WriteRow(id)).rows, id)
  {
    if Enabled(s, WriteRow(id)) {
      assert SessionRow(id, s.bound[id]) in Next(s, WriteRow(id)).rows;
    }
  }

  /**
   Exactly when a session is over: no continuation resolves a session id again if and only if it is
   in neither store and no login write or resolve of it is under way.
   */
  lemma OverIff(s: State, id: Id)
    requires id in s.bound
    ensures CanResolve(s, id) <==> !Over(s, id)
  {
    hide HasRow;
    if Over(s, id) {
      forall steps ensures !NewlyResolved(s, Run(s, steps), id) {
        OverForGood(s, steps, id);
      }
    } else if id in s.redis || id in s.toRedis {
      CachedResolves(s, id);
    } else if HasRow(s.rows, id) || id in s.toRows {
      StoredResolves(s, id);
    } else {
      var k :| 0 <= k < |s.resolvers| && s.resolvers[k].id == id && s.resolvers[k].Found?;
      FoundResolves(s, id, k);
    }
  }

  // ----- What a logout ends -----

  /** Both writes of the login are over, one way or the other. */
  predicate LoginDone(s: State, id: Id) { id in s.bound && id !in s.toRows && id !in s.toRedis }

  /** A resolve has read the session's row and is about to cache it. */
  predicate Overlaps(s: State, id: Id) {
    exists k :: 0 <= k < |s.resolvers| && s.resolvers[k].id == id && s.resolvers[k].Found?
  }

  /** No resolve of the session is under way. */
  predicate Quiet(s: State, id: Id) {
    forall k :: 0 <= k < |s.resolvers| && s.resolvers[k].id == id ==>
      s.resolvers[k].Resolved? || s.resolvers[k].Rejected?
  }

  /** The two deletes run concurrently: they come in either order, with any other commands in between. */
  function LogoutRun(id: Id, rowFirst: bool, mid: seq<Step>): seq<Step> {
    if rowFirst then [LogoutRow(id)] + (mid + ([LogoutRedis(id)] + []))
    else [LogoutRedis(id)] + (mid + ([LogoutRow(id)] + []))
  }

  ghost function AfterLogout(s: State, id: Id, rowFirst: bool, mid: seq<Step>): State {
    Run(s, LogoutRun(id, rowFirst, mid))
  }

  lemma LogoutUnfolds(s: State, id: Id, rowFirst: bool, mid: seq<Step>)
    ensures AfterLogout(s, id, rowFirst, mid)
         == if rowFirst then Next(Run(Next(s, LogoutRow(id)), mid), LogoutRedis(id))
            else Next(Run(Next(s, LogoutRedis(id)), mid), LogoutRow(id))
  {
    hide Apply, Enabled;
    var a, b := LogoutRow(id), LogoutRedis(id);
    if rowFirst {
      RunCons(s, a, mid + ([b] + []));
      RunConcat(Next(s, a), mid, [b] + []);
      RunCons(Run(Next(s, a), mid), b, []);
    } else {
      RunCons(s, b, mid + ([a] + []));
      RunConcat(Next(s, b), mid, [a] + []);
      RunCons(Run(Next(s, b), mid), a, []);
    }
  }

  lemma DoneStep(s: State, step: Step, id: Id)
    requires LoginDone(s, id) && Enabled(s, step)
    ensures LoginDone(Apply(s, step), id)
    ensures !HasRow(s.rows, id) ==> !HasRow(Apply(s, step).rows, id)
  {
    if step.WriteRow? || step.LogoutRow? {
      forall r | r in Apply(s, step).rows ensures r in s.rows || r.id == step.id {
      }
    }
  }

  lemma FoundNeedsRow(s: State, step: Step, id: Id)
    requires LoginDone(s, id) && Enabled(s, step) && !HasRow(s.rows, id)
    ensures Overlaps(Apply(s, step), id) ==> Overlaps(s, id)
  {
    hide Upsert, Without, HasRow;
    var t := Apply(s, step);
    if k :| 0 <= k < |t.resolvers| && t.resolvers[k].id == id && t.resolvers[k].Found? {
      assert k < |s.resolvers| && s.resolvers[k].id == id && s.resolvers[k].Found?;
    }
  }

  /** Without its row a session stays without it, and no resolve of it gets as far as caching any more. */
  lemma {:induction false} RowStaysGone(s: State, steps: seq<Step>, id: Id)
    requires LoginDone(s, id)
    ensures LoginDone(Run(s, steps), id)
    ensures !HasRow(s.rows, id) ==> !HasRow(Run(s, steps).rows, id) && (Overlaps(Run(s, steps), id) ==> Overlaps(s, id))
    decreases |steps|
  {
    hide Apply, Enabled, HasRow, Overlaps, LoginDone;
    if steps == [] {
    } else {
      if Enabled(s, steps[0]) {
        DoneStep(s, steps[0], id);
        if !HasRow(s.rows, id) {
          FoundNeedsRow(s, steps[0], id);
        }
      }
      RowStaysGone(Next(s, steps[0]), steps[1..], id);
    }
  }

  /**
   For a logout whose two deletes come in either order with anything in between: the session can come
   back exactly if a resolve stands between its read and its re-cache when the logout is complete, or
   has re-cached it after the DEL; with the row deleted first, the latter cannot be.
   */
  lemma LogoutIsFinalIff(s: State, id: Id, rowFirst: bool, mid: seq<Step>)
    requires LoginDone(s, id)
    ensures var t := AfterLogout(s, id, rowFirst, mid);
      && !HasRow(t.rows, id) && (rowFirst ==> id !in t.redis)
      && (CanResolve(t, id) <==> Overlaps(t, id) || id in t.redis)
  {
    hide Run, CanResolve;
    LogoutUnfolds(s, id, rowFirst, mid);
    var first := if rowFirst then LogoutRow(id) else LogoutRedis(id);
    RowStaysGone(Next(s, first), mid, id);
    OverIff(AfterLogout(s, id, rowFirst, mid), id);
  }

  ghost predicate StartsNone(steps: seq<Step>, id: Id) { forall i :: 0 <= i < |steps| ==> steps[i] != Resolve(id) }

  lemma QuietStep(s: State, step: Step, id: Id)
    requires LoginDone(s, id) && Quiet(s, id) && Enabled(s, step) && step != Resolve(id)
    ensures Quiet(Apply(s, step), id) && (id !in s.redis ==> id !in Apply(s, step).redis)
  {
    hide Upsert, Without, HasRow;
  }

  lemma {:induction false} QuietRun(s: State, steps: seq<Step>, id: Id)
    requires LoginDone(s, id) && Quiet(s, id) && StartsNone(steps, id)
    ensures Quiet(Run(s, steps), id) && (id !in s.redis ==> id !in Run(s, steps).redis)
    decreases |steps|
  {
    hide Apply, Enabled, Quiet;
    if steps == [] {
    } else {
      if Enabled(s, steps[0]) {
        DoneStep(s, steps[0], id);
        QuietStep(s, steps[0], id);
      }
      QuietRun(Next(s, steps[0]), steps[1..], id);
    }
  }

  /**
   Main result. If no resolve of the session is under way when the first delete is executed and none
   starts before the second, then after a logout nothing ever resolves the session again.
   */
  lemma LogoutIsFinal(s: State, id: Id, rowFirst: bool, mid: seq<Step>)
    requires LoginDone(s, id) && Quiet(s, id) && StartsNone(mid, id)
    ensures !CanResolve(AfterLogout(s, id, rowFirst, mid), id)
  {
    hide Run, Without, CanResolve, HasRow;
    LogoutUnfolds(s, id, rowFirst, mid);
    LogoutIsFinalIff(s, id, rowFirst, mid);
    QuietRun(Next(s, if rowFirst then LogoutRow(id) else LogoutRedis(id)), mid, id);
  }

  ghost predicate CanBeUndone(s: State, id: Id, rowFirst: bool) {
    exists mid: seq<Step> :: CanResolve(AfterLogout(s, id, rowFirst, mid), id)
  }

  /** A resolve that misses Redis after the DEL and still finds the row. */
  function ReadBetween(id: Id, k: nat): seq<Step> { [Resolve(id)] + ([GetRedis(k, false)] + ([ReadRow(k, true)] + [])) }

  lemma ReadFinds(s: State, id: Id)
    requires HasRow(s.rows, id)
    ensures Overlaps(Run(s, ReadBetween(id, |s.resolvers|)), id)
  {
    hide Run, HasRow, Upsert, Without;
    var k := |s.resolvers|;
    var s1 := Next(s, Resolve(id));
    var s2 := Next(s1, GetRedis(k, false));
    var s3 := Next(s2, ReadRow(k, true));
    RunNone(s3);
    RunCons(s, Resolve(id), [GetRedis(k, false)] + ([ReadRow(k, true)] + []));
    RunCons(s1, GetRedis(k, false), [ReadRow(k, true)] + []);
    RunCons(s2, ReadRow(k, true), []);
    assert s2.resolvers[k] == Missed(id) && s2.rows == s.rows;
    assert s3.resolvers[k].Found? && s3.resolvers[k].id == id;
  }

  /**
   Exactly when some scheduling undoes a logout, judged before it: a resolve has already read the row,
   or, if the DEL comes first, the row is there to be read before it is deleted.
   */
  lemma CanBeUndoneIff(s: State, id: Id, rowFirst: bool)
    requires LoginDone(s, id)
    ensures CanBeUndone(s, id, rowFirst) <==> Overlaps(s, id) || (!rowFirst && HasRow(s.rows, id))
  {
    hide Run, Without, CanResolve, AfterLogout, Overlaps, HasRow;
    if Overlaps(s, id) {
      Undone(s, id, rowFirst, []);
    } else if !rowFirst && HasRow(s.rows, id) {
      ReadFinds(Next(s, LogoutRedis(id)), id);
      Undone(s, id, rowFirst, ReadBetween(id, |s.resolvers|));
    } else {
      forall mid: seq<Step> ensures !CanResolve(AfterLogout(s, id, rowFirst, mid), id) {
        NotUndone(s, id, rowFirst, mid);
      }
    }
  }

  lemma SameResolvers(s: State, step: Step, id: Id)
    requires step.LogoutRow? || step.LogoutRedis?
    ensures Overlaps(Next(s, step), id) == Overlaps(s, id)
  {
  }

  lemma Undone(s: State, id: Id, rowFirst: bool, mid: seq<Step>)
    requires LoginDone(s, id)
    requires var first := if rowFirst then LogoutRow(id) else LogoutRedis(id);
             Overlaps(Run(Next(s, first), mid), id) || (mid == [] && Overlaps(s, id))
    ensures CanResolve(AfterLogout(s, id, rowFirst, mid), id)
  {
    hide Next, CanResolve, Overlaps, HasRow, LoginDone;
    var first, last := LogoutRow(id), LogoutRedis(id);
    if !rowFirst {
      first, last := last, first;
    }
    LogoutUnfolds(s, id, rowFirst, mid);
    LogoutIsFinalIff(s, id, rowFirst, mid);
    SameResolvers(s, first, id);
    SameResolvers(Run(Next(s, first), mid), last, id);
  }

  lemma NotUndone(s: State, id: Id, rowFirst: bool, mid: seq<Step>)
    requires LoginDone(s, id) && !Overlaps(s, id) && (rowFirst || !HasRow(s.rows, id))
    ensures !CanResolve(AfterLogout(s, id, rowFirst, mid), id)
  {
    hide Run, CanResolve, Overlaps;
    LogoutUnfolds(s, id, rowFirst, mid);
    LogoutIsFinalIff(s, id, rowFirst, mid);
    if rowFirst {
      var s1 := Next(s, LogoutRow(id));
      SameResolvers(s, LogoutRow(id), id);
      RowStaysGone(s1, mid, id);
      SameResolvers(Run(s1, mid), LogoutRedis(id), id);
    } else {
      var s1 := Next(s, LogoutRedis(id));
      SameResolvers(s, LogoutRedis(id), id);
      NoOverlapIsOver(s1, id);
      OverForGood(s1, mid, id);
      OverStep(Run(s1, mid), LogoutRow(id), id);
      NoOverlapIsOver(AfterLogout(s, id, rowFirst, mid), id);
    }
  }

  lemma NoOverlapIsOver(s: State, id: Id)
    ensures Over(s, id) <==> LoginDone(s, id) && id !in s.redis && !HasRow(s.rows, id) && !Overlaps(s, id)
  {
  }

  /** A login that has stored its row, and nothing else going on. */
  lemma LoggedInRun(id: Id, a: Address) returns (before: seq<Step>)
    ensures Run(INIT, before) == State(map[], {SessionRow(id, a)}, [], map[id := a], {}, {})
  {
    before := [Login(id, a)] + ([WriteRow(id)] + ([Abandon(id)] + []));
    var b := map[id := a];
    var s1 := State(map[], {}, [], b, {id}, {id});
    var s2 := State(map[], {SessionRow(id, a)}, [], b, {}, {id});
    RunCons(INIT, Login(id, a), [WriteRow(id)] + ([Abandon(id)] + []));
    assert Next(INIT, Login(id, a)) == s1;
    RunCons(s1, WriteRow(id), [Abandon(id)] + []);
    assert Upsert({}, id, a) == {SessionRow(id, a)};
    assert Next(s1, WriteRow(id)) == s2;
    RunCons(s2, Abandon(id), []);
    assert Next(s2, Abandon(id)) == State(map[], {SessionRow(id, a)}, [], b, {}, {});
  }

  /** With nothing under way at the start, a resolve that falls between the two deletes undoes the logout. */
  lemma ResolveBetweenDeletes(id: Id, a: Address)
    ensures exists before: seq<Step> ::
              var s := Run(INIT, before); LoginDone(s, id) && s.resolvers == [] && CanBeUndone(s, id, false)
  {
    hide Run, CanBeUndone;
    var before := LoggedInRun(id, a);
    var s := Run(INIT, before);
    assert SessionRow(id, a) in s.rows;
    CanBeUndoneIff(s, id, false);
  }

  /** A resolve that read Postgres before the logout undoes it whatever the order of the deletes. */
  lemma LogoutCanBeUndone(id: Id, a: Address, rowFirst: bool)
    ensures exists before: seq<Step> :: LoginDone(Run(INIT, before), id) && CanBeUndone(Run(INIT, before), id, rowFirst)
  {
    hide Run, CanBeUndone, Overlaps, LoginDone;
    var before := LoggedInRun(id, a);
    var s := Run(INIT, before);
    assert LoginDone(s, id) && HasRow(s.rows, id) by {
      assert SessionRow(id, a) in s.rows;
      OwnDone(s, id);
    }
    var steps := ReadBetween(id, 0);
    ReadFinds(s, id);
    RowStaysGone(s, steps, id);
    RunConcat(INIT, before, steps);
    CanBeUndoneIff(Run(INIT, before + steps), id, rowFirst);
  }

  lemma OwnDone(s: State, id: Id)
    requires id in s.bound && id !in s.toRows && id !in s.toRedis
    ensures LoginDone(s, id)
  {
  }

  // ----- The operations as the source writes them -----

  class SessionStore {
    var redis: map<Id, Address>
    var rows: set<SessionRow>
    ghost var bound: map<Id, Address>

    ghost predicate Valid()
      reads this
    {
      RowsInv(rows, bound) && RedisInv(redis, bound)
    }

    /** The two writes of `create_session` run together; the flags tell which took effect. */
    method CreateSession(id: Id, a: Address, rowWritten: bool, redisWritten: bool) returns (ok: bool)
      requires Valid() && id !in bound
      modifies this
      ensures Valid() && bound == old(bound)[id := a]
      ensures ok == (rowWritten && redisWritten)
      ensures !rowWritten ==> rows == old(rows)
      ensures rowWritten ==> forall r :: r in rows <==> r == SessionRow(id, a) || (r in old(rows) && r.account != a)
      ensures redis == (if redisWritten then old(redis)[id := a] else old(redis))
    {
      bound := bound[id := a];
      if rowWritten {
        UpsertKeepsRows(rows, bound, id);
        rows := (set r | r in rows && r.account != a) + {SessionRow(id, a)};
      }
      if redisWritten {
        redis := redis[id := a];
      }
      ok := rowWritten && redisWritten;
    }

    /** `resolve_session_address`: Redis first, then Postgres and back into Redis. */
    method ResolveSession(id: Id, redisUp: bool, dbUp: bool, saveUp: bool) returns (r: Option<Address>)
      requires Valid()
      modifies this`redis
      ensures Valid()
      ensures redisUp && id in old(redis) ==> r == Some(old(redis)[id]) && redis == old(redis)
      ensures !(redisUp && id in old(redis)) ==>
                && (r.Some? <==> dbUp && saveUp && exists row :: row in rows && row.id == id)
                && (r.Some? ==> SessionRow(id, r.value) in rows)
                && redis == if r.Some? then old(redis)[id := r.value] else old(redis)
      ensures r.Some? ==> id in bound && r.value == bound[id]
    {
      if redisUp && id in redis {
        return Some(redis[id]);
      }
      var found := set row | row in rows && row.id == id;
      assert HasRow(rows, id) <==> found != {} by {
        assert forall row :: row in rows && row.id == id ==> row in found;
        if found != {} {
          var row :| row in found;
        }
      }
      if !dbUp || found == {} {
        return None;
      }
      var row :| row in found;
      if !saveUp {
        return None;
      }
      redis := redis[id := row.account];
      return Some(row.account);
    }

    /** `delete_session`: both deletes are always attempted, and either may fail. */
    method DeleteSession(id: Id, redisUp: bool, dbUp: bool) returns (ok: bool)
      requires Valid()
      modifies this`redis, this`rows
      ensures Valid() && ok == (redisUp && dbUp)
      ensures redis == (if redisUp then old(redis) - {id} else old(redis))
      ensures !dbUp ==> rows == old(rows)
      ensures dbUp ==> forall r :: r in rows <==> r in old(rows) && r.id != id
    {
      if redisUp {
        redis := redis - {id};
      }
      if dbUp {
        rows := set r | r in rows && r.id != id;
      }
      ok := redisUp && dbUp;
    }
  }
}
