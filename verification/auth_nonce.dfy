/**
 Single-use login nonces (src/controllers/auth/nonce.rs, src/services/auth/mod.rs). A nonce is
 written by an upsert that may land late; a login deletes the row that carries the signed message,
 with one retry. Issuing, landing and any number of logins interleave.
 */
module AuthNonce {
  import opened Prelude

  type Address = string
  type Message = string

  /** NONCE_REPLICATION_RETRY_DELAY in milliseconds. */
  const RETRY_DELAY: nat := 2_000

  datatype NonceRow = NonceRow(message: Message, expiresAt: nat)

  /** The `auth_nonce` table: its primary key is the address. */
  type Table = map<Address, NonceRow>

  /** A nonce that was issued; `landed` tells whether its upsert has been executed. */
  datatype Write = Write(address: Address, ttl: nat, landed: bool)

  /** One call of `take_nonce` for the address recovered from a signature. */
  datatype Taker =
    | First(address: Address, message: Message)
    | Waiting(address: Address, message: Message, until: nat)
    | Won(address: Address, message: Message)
    | Refused(address: Address, message: Message)
    | Errored(address: Address, message: Message)

  /** History: which call deleted the row of a message, and when. */
  datatype Consumed = Consumed(taker: nat, at: nat, expiresAt: nat)

  datatype State = State(
    now: nat, table: Table, writes: map<Message, Write>, takers: seq<Taker>, consumed: map<Message, Consumed>)

  const INIT: State := State(0, map[], map[], [], map[])

  datatype Step =
    | Tick(d: nat)
    | Issue(message: Message, address: Address, ttl: nat)
    | Land(message: Message)
    | Begin(address: Address, message: Message)
    | Attempt(k: nat, executed: bool, delivered: bool)

  /** The row the DELETE of an attempt finds. */
  predicate Matches(table: Table, now: nat, a: Address, m: Message) {
    a in table && table[a].message == m && now < table[a].expiresAt
  }

  function TakeFrom(table: Table, now: nat, a: Address, m: Message): Table {
    if Matches(table, now, a, m) then table - {a} else table
  }

  predicate Enabled(s: State, step: Step) {
    match step
    case Issue(m, _, _) => m !in s.writes                 // a fresh UUID is part of the message
    case Land(m) => m in s.writes && !s.writes[m].landed
    case Attempt(k, _, _) =>
      k < |s.takers| && (s.takers[k].First? || (s.takers[k].Waiting? && s.takers[k].until <= s.now))
    case _ => true
  }

  function AfterAttempt(taker: Taker, now: nat, hit: bool, answered: bool): Taker {
    var a, m := taker.address, taker.message;
    if !answered then Errored(a, m)
    else if hit then Won(a, m)
    else if taker.First? then Waiting(a, m, now + RETRY_DELAY)
    else Refused(a, m)
  }

  function Apply(s: State, step: Step): State
    requires Enabled(s, step)
  {
    match step
    case Tick(d) => s.(now := s.now + d)
    case Issue(m, a, ttl) => s.(writes := s.writes[m := Write(a, ttl, false)])
    case Land(m) =>
      var w := s.writes[m];
      s.(table := s.table[w.address := NonceRow(m, s.now + w.ttl)], writes := s.writes[m := w.(landed := true)])
    case Begin(a, m) => s.(takers := s.takers + [First(a, m)])
    case Attempt(k, executed, delivered) =>
      var a, m := s.takers[k].address, s.takers[k].message;
      var hit := executed && Matches(s.table, s.now, a, m);
      s.(takers := s.takers[k := AfterAttempt(s.takers[k], s.now, hit, executed && delivered)],
         table := if executed then TakeFrom(s.table, s.now, a, m) else s.table,
         consumed := if hit then s.consumed[m := Consumed(k, s.now, s.table[a].expiresAt)] else s.consumed)
  }

  function Next(s: State, step: Step): State { if Enabled(s, step) then Apply(s, step) else s }

  /** Runs: steps that are not enabled change nothing. */
  function Run(s: State, steps: seq<Step>): State
    decreases |steps|
  {
    if steps == [] then s else Run(Next(s, steps[0]), steps[1..])
  }

  // ----- Invariant -----

  predicate HasLanded(s: State, m: Message) { m in s.writes && s.writes[m].landed }

  ghost predicate RowInv(s: State, a: Address)
    requires a in s.table
  {
    var m := s.table[a].message;
    HasLanded(s, m) && s.writes[m].address == a && m !in s.consumed
  }

  ghost predicate ConsumedInv(s: State, m: Message)
    requires m in s.consumed
  {
    var c := s.consumed[m];
    && HasLanded(s, m) && c.at < c.expiresAt && c.at <= s.now
    && c.taker < |s.takers| && (s.takers[c.taker].Won? || s.takers[c.taker].Errored?)
    && s.takers[c.taker].message == m && s.takers[c.taker].address == s.writes[m].address
  }

  ghost predicate WinnerInv(s: State, k: nat)
    requires k < |s.takers|
  {
    s.takers[k].Won? ==> s.takers[k].message in s.consumed && s.consumed[s.takers[k].message].taker == k
  }

  ghost predicate Inv(s: State) {
    && (forall a :: a in s.table ==> RowInv(s, a))
    && (forall m :: m in s.consumed ==> ConsumedInv(s, m))
    && (forall k :: 0 <= k < |s.takers| ==> WinnerInv(s, k))
  }

  lemma RowsKept(s: State, step: Step, a: Address)
    requires Inv(s) && Enabled(s, step) && a in Apply(s, step).table
    ensures RowInv(Apply(s, step), a)
  {
    hide ConsumedInv, WinnerInv;
    assert a in s.table ==> RowInv(s, a);
    if step.Land? {
      assert step.message in s.consumed ==> ConsumedInv(s, step.message);
      LandedNotConsumed(s, step.message);
    }
    if step.Attempt? {
      var b := s.takers[step.k].address;
      assert b in s.table ==> RowInv(s, b);
    }
  }

  lemma LandedNotConsumed(s: State, m: Message)
    requires Inv(s) && m in s.writes && !s.writes[m].landed
    ensures m !in s.consumed
  {
    assert m in s.consumed ==> ConsumedInv(s, m);
  }

  lemma ConsumedKept(s: State, step: Step, m: Message)
    requires Inv(s) && Enabled(s, step) && m in Apply(s, step).consumed
    ensures ConsumedInv(Apply(s, step), m)
  {
    hide WinnerInv;
    assert m in s.consumed ==> ConsumedInv(s, m);
    if step.Attempt? {
      var b := s.takers[step.k].address;
      assert b in s.table ==> RowInv(s, b);
    }
  }

  lemma WinnersKept(s: State, step: Step, k: nat)
    requires Inv(s) && Enabled(s, step) && k < |Apply(s, step).takers|
    ensures WinnerInv(Apply(s, step), k)
  {
    hide ConsumedInv;
    assert k < |s.takers| ==> WinnerInv(s, k);
    if step.Attempt? {
      var b := s.takers[step.k].address;
      assert b in s.table ==> RowInv(s, b);
    }
  }

  lemma StepKeepsInv(s: State, step: Step)
    requires Inv(s) && Enabled(s, step)
    ensures Inv(Apply(s, step))
  {
    hide RowInv, ConsumedInv, WinnerInv, Apply, Enabled;
    var t := Apply(s, step);
    forall a | a in t.table ensures RowInv(t, a) { RowsKept(s, step, a); }
    forall m | m in t.consumed ensures ConsumedInv(t, m) { ConsumedKept(s, step, m); }
    forall k | 0 <= k < |t.takers| ensures WinnerInv(t, k) { WinnersKept(s, step, k); }
  }

  lemma {:induction false} RunKeepsInv(s: State, steps: seq<Step>)
    requires Inv(s)
    ensures Inv(Run(s, steps))
    decreases |steps|
  {
    hide Inv, Apply, Enabled;
    if steps == [] {
    } else {
      if Enabled(s, steps[0]) {
        StepKeepsInv(s, steps[0]);
      }
      RunKeepsInv(Next(s, steps[0]), steps[1..]);
    }
  }

  predicate WonBy(s: State, k: nat, m: Message) { k < |s.takers| && s.takers[k].Won? && s.takers[k].message == m }

  lemma RunCons(s: State, step: Step, steps: seq<Step>)
    ensures Run(s, [step] + steps) == Run(Next(s, step), steps)
  {
    assert ([step] + steps)[1..] == steps;
  }

  lemma RunNone(s: State)
    ensures Run(s, []) == s
  {
  }

  lemma {:induction false} RunConcat(s: State, a: seq<Step>, b: seq<Step>)
    ensures Run(s, a + b) == Run(Run(s, a), b)
    decreases |a|
  {
    if a == [] {
      assert a + b == b;
    } else {
      assert (a + b)[1..] == a[1..] + b;
      RunConcat(Next(s, a[0]), a[1..], b);
    }
  }

  lemma RunSnoc(steps: seq<Step>)
    requires steps != []
    ensures var last := |steps| - 1; Run(INIT, steps) == Next(Run(INIT, steps[..last]), steps[last])
  {
    hide Next;
    var last := |steps| - 1;
    assert steps == steps[..last] + ([steps[last]] + []);
    RunConcat(INIT, steps[..last], [steps[last]] + []);
    RunCons(Run(INIT, steps[..last]), steps[last], []);
  }

  predicate Issues(step: Step, m: Message) { step.Issue? && step.message == m }

  /** The run's one issue of this message: later ones with it are not enabled. */
  ghost predicate Issued(steps: seq<Step>, m: Message, a: Address, ttl: nat) {
    exists i :: 0 <= i < |steps| && steps[i] == Issue(m, a, ttl) && forall j :: 0 <= j < i ==> !Issues(steps[j], m)
  }

  lemma WritesStep(s: State, step: Step, m: Message)
    ensures var t := Next(s, step);
      && (m in t.writes <==> m in s.writes || Issues(step, m))
      && (m in s.writes ==> t.writes[m].address == s.writes[m].address && t.writes[m].ttl == s.writes[m].ttl)
      && (m !in s.writes && Issues(step, m) ==> t.writes[m] == Write(step.address, step.ttl, false))
  {
    hide Matches, TakeFrom;
  }

  lemma {:induction false} WritesAreIssues(steps: seq<Step>, m: Message)
    ensures var writes := Run(INIT, steps).writes;
      && (m in writes <==> exists i :: 0 <= i < |steps| && Issues(steps[i], m))
      && (m in writes ==> Issued(steps, m, writes[m].address, writes[m].ttl))
    decreases |steps|
  {
    hide Run, Next;
    if steps == [] {
      RunNone(INIT);
    } else {
      var last := |steps| - 1;
      var before, step, w := steps[..last], steps[last], Run(INIT, steps[..last]).writes;
      RunSnoc(steps);
      WritesAreIssues(before, m);
      WritesStep(Run(INIT, before), step, m);
      if m in w {
        var i :| 0 <= i < last && before[i] == Issue(m, w[m].address, w[m].ttl)
                 && forall j :: 0 <= j < i ==> !Issues(before[j], m);
        assert steps[i] == before[i] && forall j :: 0 <= j < i ==> steps[j] == before[j];
      } else {
        forall j | 0 <= j < last ensures !Issues(steps[j], m) {
          assert before[j] == steps[j];
        }
        assert Issues(step, m) ==> steps[last] == Issue(m, step.address, step.ttl);
      }
    }
  }

  /** The row is that of a nonce issued for the address, and expires its lifetime after landing. */
  ghost predicate LandedAs(steps: seq<Step>, a: Address, row: NonceRow) {
    exists i, ttl: nat :: 0 <= i < |steps| && steps[i] == Land(row.message) && Issued(steps, row.message, a, ttl)
                          && row.expiresAt == Run(INIT, steps[..i]).now + ttl
  }

  lemma LandedLater(steps: seq<Step>, step: Step, a: Address, row: NonceRow)
    requires LandedAs(steps, a, row)
    ensures LandedAs(steps + [step], a, row)
  {
    hide Run, Issued;
    var i, ttl: nat :| 0 <= i < |steps| && steps[i] == Land(row.message) && Issued(steps, row.message, a, ttl)
                       && row.expiresAt == Run(INIT, steps[..i]).now + ttl;
    IssuedLater(steps, step, row.message, a, ttl);
    assert (steps + [step])[i] == Land(row.message) && (steps + [step])[..i] == steps[..i];
  }

  lemma IssuedLater(steps: seq<Step>, step: Step, m: Message, a: Address, ttl: nat)
    requires Issued(steps, m, a, ttl)
    ensures Issued(steps + [step], m, a, ttl)
  {
    var i :| 0 <= i < |steps| && steps[i] == Issue(m, a, ttl) && forall j :: 0 <= j < i ==> !Issues(steps[j], m);
    assert (steps + [step])[i] == Issue(m, a, ttl);
  }

  lemma RowStep(s: State, step: Step, a: Address)
    requires a in Next(s, step).table
    ensures var t := Next(s, step);
      || (a in s.table && t.table[a] == s.table[a])
      || (step.Land? && step.message in s.writes && s.writes[step.message].address == a
          && t.table[a] == NonceRow(step.message, s.now + s.writes[step.message].ttl))
  {
  }

  lemma {:induction false} RowsLanded(steps: seq<Step>, a: Address)
    requires a in Run(INIT, steps).table
    ensures LandedAs(steps, a, Run(INIT, steps).table[a])
    decreases |steps|
  {
    hide Run, Next, Issued;
    if steps == [] {
      RunNone(INIT);
    } else {
      var last := |steps| - 1;
      var before, step, s := steps[..last], steps[last], Run(INIT, steps[..last]);
      assert steps == before + [step];
      RunSnoc(steps);
      RowStep(s, step, a);
      if a in s.table && Run(INIT, steps).table[a] == s.table[a] {
        RowsLanded(before, a);
        LandedLater(before, step, a, s.table[a]);
      } else {
        WritesAreIssues(before, step.message);
        IssuedLater(before, step, step.message, a, s.writes[step.message].ttl);
        assert steps[last] == Land(step.message);
      }
    }
  }

  /** Step `i` is the attempt that found the call's message, unexpired, in its own address's row, and took it. */
  ghost predicate TakesRow(steps: seq<Step>, i: int, k: nat, a: Address, m: Message) {
    0 <= i < |steps| && steps[i] == Attempt(k, true, true) &&
      var s := Run(INIT, steps[..i]);
      && a in s.table && s.table[a].message == m && s.now < s.table[a].expiresAt
      && LandedAs(steps[..i], a, s.table[a]) && a !in Run(INIT, steps[..i + 1]).table
  }

  lemma WinStep(s: State, step: Step, k: nat)
    requires k < |Next(s, step).takers| && Next(s, step).takers[k].Won?
    requires !(k < |s.takers| && s.takers[k].Won?)
    ensures var t := Next(s, step);
            var a := t.takers[k].address;
      && step == Attempt(k, true, true) && a in s.table && s.table[a].message == t.takers[k].message
      && s.now < s.table[a].expiresAt && a !in t.table
  {
  }

  lemma WonStays(s: State, step: Step, k: nat)
    requires k < |s.takers| && s.takers[k].Won?
    ensures k < |Next(s, step).takers| && Next(s, step).takers[k] == s.takers[k]
  {
  }

  lemma {:induction false} WinnersTook(steps: seq<Step>, k: nat)
    requires k < |Run(INIT, steps).takers| && Run(INIT, steps).takers[k].Won?
    ensures var taker := Run(INIT, steps).takers[k];
            exists i :: TakesRow(steps, i, k, taker.address, taker.message)
    decreases |steps|
  {
    hide Run, Next, LandedAs;
    if steps == [] {
      RunNone(INIT);
    } else {
      var last := |steps| - 1;
      var before, s, taker := steps[..last], Run(INIT, steps[..last]), Run(INIT, steps).takers[k];
      RunSnoc(steps);
      if k < |s.takers| && s.takers[k].Won? {
        WonStays(s, steps[last], k);
        WinnersTook(before, k);
        var i :| TakesRow(before, i, k, taker.address, taker.message);
        assert steps[i] == before[i] && steps[..i] == before[..i] && steps[..i + 1] == before[..i + 1];
        assert TakesRow(steps, i, k, taker.address, taker.message);
      } else {
        WinStep(s, steps[last], k);
        RowsLanded(before, taker.address);
        assert steps[..last + 1] == steps;
        assert TakesRow(steps, last, k, taker.address, taker.message);
      }
    }
  }

  /**
   Main result. In every interleaving a message lets at most one login through, and one that is let
   through took, by its own delete, the row in which the message had landed for its own address, before
   the lifetime it was issued with was over.
   */
  lemma NonceIsSingleUse(steps: seq<Step>)
    ensures var s := Run(INIT, steps);
      && (forall m, j: nat, k: nat :: WonBy(s, j, m) && WonBy(s, k, m) ==> j == k)
      && (forall k: nat :: k < |s.takers| && s.takers[k].Won? ==>
            exists i :: TakesRow(steps, i, k, s.takers[k].address, s.takers[k].message))
  {
    hide Run, TakesRow;
    RunKeepsInv(INIT, steps);
    var s := Run(INIT, steps);
    forall k: nat | k < |s.takers| && s.takers[k].Won?
      ensures s.takers[k].message in s.consumed && s.consumed[s.takers[k].message].taker == k
      ensures exists i :: TakesRow(steps, i, k, s.takers[k].address, s.takers[k].message)
    {
      assert WinnerInv(s, k);
      WinnersTook(steps, k);
    }
  }

  predicate Superseded(s: State, t: State, a: Address, newer: Message) {
    HasLanded(t, newer) && !HasLanded(s, newer) && t.writes[newer].address == a
  }

  predicate TakenFor(t: State, m: Message, a: Address, before: nat) {
    && m in t.consumed && t.consumed[m].at < before
    && t.consumed[m].taker < |t.takers| && t.takers[t.consumed[m].taker].address == a
  }

  /**
   A row stays through any run until a login of its own address consumes its message before expiry,
   or a newer nonce of that address lands: no login removes a message it did not sign.
   */
  lemma {:induction false} RowStaysUntil(s: State, steps: seq<Step>, a: Address)
    requires Inv(s) && a in s.table
    ensures var t, m := Run(s, steps), s.table[a].message;
      || (a in t.table && t.table[a] == s.table[a])
      || TakenFor(t, m, a, s.table[a].expiresAt)
      || (exists newer :: Superseded(s, t, a, newer))
    decreases |steps|
  {
    hide Inv, Apply, Enabled;
    if steps == [] {
    } else {
      var s', rest := Next(s, steps[0]), steps[1..];
      var t, m := Run(s, steps), s.table[a].message;
      if Enabled(s, steps[0]) {
        StepKeepsInv(s, steps[0]);
        RowStaysStep(s, steps[0], a);
      }
      if a in s'.table && s'.table[a] == s.table[a] {
        RowStaysUntil(s', rest, a);
        LandingsGrow(s, s', steps[0]);
        forall newer | Superseded(s', t, a, newer) ensures Superseded(s, t, a, newer) { }
      } else {
        HistoryGrows(s', rest);
        if newer :| Superseded(s, s', a, newer) {
          assert Superseded(s, t, a, newer);
        }
      }
    }
  }

  lemma LandingsGrow(s: State, t: State, step: Step)
    requires t == Next(s, step)
    ensures forall m :: HasLanded(s, m) ==> HasLanded(t, m) && t.writes[m] == s.writes[m]
  {
  }

  lemma RowStaysStep(s: State, step: Step, a: Address)
    requires Inv(s) && Enabled(s, step) && a in s.table
    ensures var t, m := Apply(s, step), s.table[a].message;
      || (a in t.table && t.table[a] == s.table[a])
      || TakenFor(t, m, a, s.table[a].expiresAt)
      || (exists newer :: Superseded(s, t, a, newer))
  {
    if step.Land? && s.writes[step.message].address == a {
      assert Superseded(s, Apply(s, step), a, step.message);
    }
  }

  lemma {:induction false} HistoryGrows(s: State, steps: seq<Step>)
    requires Inv(s)
    ensures var t := Run(s, steps);
      && (forall m :: m in s.consumed ==> m in t.consumed && t.consumed[m] == s.consumed[m])
      && (forall m :: HasLanded(s, m) ==> HasLanded(t, m) && t.writes[m] == s.writes[m])
      && |s.takers| <= |t.takers| && (forall k :: 0 <= k < |s.takers| ==> t.takers[k].address == s.takers[k].address)
    decreases |steps|
  {
    hide Inv;
    if steps == [] {
    } else {
      if Enabled(s, steps[0]) {
        StepKeepsInv(s, steps[0]);
        ConsumedOnce(s, steps[0]);
      }
      HistoryGrows(Next(s, steps[0]), steps[1..]);
    }
  }

  lemma ConsumedOnce(s: State, step: Step)
    requires Inv(s) && Enabled(s, step)
    ensures forall m :: m in s.consumed ==> m in Apply(s, step).consumed && Apply(s, step).consumed[m] == s.consumed[m]
  {
    hide ConsumedInv, WinnerInv;
    if step.Attempt? {
      var b := s.takers[step.k].address;
      assert b in s.table ==> RowInv(s, b);
    }
  }

  // ----- Exactly which nonces can still be used -----

  /** Still to land with some life in it, or in the table and not expired. */
  predicate Usable(s: State, m: Message) {
    m in s.writes &&
      if s.writes[m].landed then Matches(s.table, s.now, s.writes[m].address, m) else s.writes[m].ttl > 0
  }

  ghost predicate NewlyWon(s: State, t: State, m: Message) {
    exists k: nat :: WonBy(t, k, m) && !WonBy(s, k, m)
  }

  ghost predicate CanStillLogIn(s: State, m: Message) { exists steps: seq<Step> :: NewlyWon(s, Run(s, steps), m) }

  lemma UnusableStep(s: State, step: Step, m: Message)
    requires Inv(s) && m in s.writes && !Usable(s, m) && Enabled(s, step)
    ensures m in Apply(s, step).writes && !NewlyWon(s, Apply(s, step), m)
    ensures !Usable(Apply(s, step), m) || (!s.writes[m].landed && step == Land(m))
  {
    hide ConsumedInv, WinnerInv;
    if step.Attempt? {
      var b := s.takers[step.k].address;
      assert b in s.table ==> RowInv(s, b);
    }
  }

  /** A nonce issued with no lifetime never matches. */
  lemma DeadOnLanding(s: State, m: Message)
    requires Enabled(s, Land(m)) && s.writes[m].ttl == 0
    ensures !Usable(Apply(s, Land(m)), m)
  {
  }

  lemma {:induction false} UnusableForGood(s: State, steps: seq<Step>, m: Message)
    requires Inv(s) && m in s.writes && !Usable(s, m)
    ensures !NewlyWon(s, Run(s, steps), m)
    decreases |steps|
  {
    hide Inv, Apply;
    if steps == [] {
    } else {
      var t := Next(s, steps[0]);
      if Enabled(s, steps[0]) {
        StepKeepsInv(s, steps[0]);
        UnusableStep(s, steps[0], m);
        if steps[0] == Land(m) {
          DeadOnLanding(s, m);
        }
      }
      UnusableForGood(t, steps[1..], m);
      var u := Run(s, steps);
      forall k: nat | WonBy(u, k, m) ensures WonBy(s, k, m) {
        assert WonBy(t, k, m);
      }
    }
  }

  lemma UsableWins(s: State, m: Message)
    requires Usable(s, m)
    ensures CanStillLogIn(s, m)
  {
    var a, k := s.writes[m].address, |s.takers|;
    var s1 := Next(s, Land(m));
    var s2 := Next(s1, Begin(a, m));
    var s3 := Next(s2, Attempt(k, true, true));
    RunCons(s, Land(m), [Begin(a, m)] + ([Attempt(k, true, true)] + []));
    RunCons(s1, Begin(a, m), [Attempt(k, true, true)] + []);
    RunCons(s2, Attempt(k, true, true), []);
    assert WonBy(s3, k, m);
    assert NewlyWon(s, Run(s, [Land(m)] + ([Begin(a, m)] + ([Attempt(k, true, true)] + []))), m);
  }

  /**
   Over every run: an issued nonce can still log someone in exactly when it is yet to land or is the
   current, unexpired row of its address. Superseded, taken and expired nonces are dead for good.
   */
  lemma UsableIff(before: seq<Step>, m: Message)
    requires m in Run(INIT, before).writes
    ensures var s := Run(INIT, before); CanStillLogIn(s, m) <==> Usable(s, m)
  {
    hide Run, Usable;
    var s := Run(INIT, before);
    RunKeepsInv(INIT, before);
    if Usable(s, m) {
      UsableWins(s, m);
    } else {
      forall steps ensures !NewlyWon(s, Run(s, steps), m) {
        UnusableForGood(s, steps, m);
      }
    }
  }

  // ----- The controller as the source writes it -----

  class NonceController {
    var now: nat
    var table: Table

    /** INSERT .. ON CONFLICT (address) DO UPDATE */
    method SetNonce(a: Address, m: Message, ttl: nat)
      modifies this`table
      ensures table == old(table)[a := NonceRow(m, now + ttl)]
    {
      table := table[a := NonceRow(m, now + ttl)];
    }

    /** DELETE .. RETURNING; `Err` is a database error, with the statement executed or not. */
    method TryTakeNonce(a: Address, m: Message, executed: bool, delivered: bool)
      returns (r: Result<Option<Message>, ()>)
      modifies this`table
      ensures var hit := executed && a in old(table) && old(table)[a].message == m && now < old(table)[a].expiresAt;
        && table == (if hit then old(table) - {a} else old(table))
        && (r.Ok? <==> executed && delivered) && (r.Ok? ==> r.value == if hit then Some(m) else None)
    {
      if !executed {
        return Err(());
      }
      var found: Option<Message> := None;
      if a in table && table[a].message == m && now < table[a].expiresAt {
        found := Some(table[a].message);
        table := table - {a};
      }
      r := if delivered then Ok(found) else Err(());
    }

    /**
     `take_nonce`. `meanwhile` is what other statements make of the table during the wait, and the
     flags tell whether the database answers. A login succeeds exactly when its row is there at the
     first attempt or, late, at the second; an error ends the call.
     */
    method TakeNonce(a: Address, m: Message, meanwhile: Table -> Table, firstUp: bool, secondUp: bool)
      returns (r: Result<Message, ()>)
      modifies this
      ensures var before, after, later := old(table), meanwhile(old(table)), old(now) + 2_000;
              var first := firstUp && a in before && before[a].message == m && old(now) < before[a].expiresAt;
              var second := firstUp && !first && secondUp
                            && a in after && after[a].message == m && later < after[a].expiresAt;
        && (r.Ok? <==> first || second) && (r.Ok? ==> r.value == m)
        && table == (if first then before - {a}
                     else if !firstUp then before
                     else if second then after - {a}
                     else after)
        && now == (if first || !firstUp then old(now) else later)
    {
      var found := TryTakeNonce(a, m, firstUp, firstUp);
      if found.Err? {
        return Err(());
      }
      if found.value.Some? {
        return Ok(found.value.value);
      }
      now := now + RETRY_DELAY;
      table := meanwhile(table);
      found := TryTakeNonce(a, m, secondUp, secondUp);
      r := if found.Ok? && found.value.Some? then Ok(found.value.value) else Err(());
    }
  }
}
