/**
 The fixed-window rate limiter (src/services/rate_limiter.rs, src/db/redis/mod.rs): each call reads
 the clock, INCRs the counter of its minute and, if it was the first, sets a TTL with a second
 command. Calls of many requests and instances interleave at those commands.
 */
module RateLimiter {
  import opened Arithmetic
  import opened Prelude
  import opened Text

  /** What a request is counted under: its API key's hash, or else its client address. */
  datatype Ident = Key(hash: string) | Ip(address: string)

  const TTL: nat := 120

  function Limit(id: Ident): nat {
    match id
    case Key(_) => 100
    case Ip(_) => 10
  }

  function IdentText(id: Ident): string {
    match id
    case Key(hash) => "key:" + hash
    case Ip(address) => "ip:" + address
  }

  function RedisKey(id: Ident, minute: nat): string {
    "rate:" + IdentText(id) + ":min" + ":" + Decimal(minute)
  }

  lemma RedisKeyText(id: Ident, minute: nat)
    ensures RedisKey(id, minute)
         == "rate:" + (if id.Key? then "key:" + id.hash else "ip:" + id.address) + ":min:" + Decimal(minute)
  {
    var head := "rate:" + IdentText(id);
    assert head + ":min" + ":" + Decimal(minute) == head + ":min:" + Decimal(minute);
  }

  /** Different identifiers or minutes never share a counter, whatever text a client sends. */
  lemma RedisKeyInjective(id: Ident, m: nat, id': Ident, m': nat)
    requires RedisKey(id, m) == RedisKey(id', m')
    ensures id == id' && m == m'
  {
    var a, b := "rate:" + IdentText(id) + ":min", "rate:" + IdentText(id') + ":min";
    RadixIsDigits(m, 10);
    RadixIsDigits(m', 10);
    LastSeparator(a, Decimal(m), b, Decimal(m'), ':');
    RadixRoundTrip(m, 10);
    RadixRoundTrip(m', 10);
    assert |IdentText(id)| == |IdentText(id')|;
    assert IdentText(id) == a[5..|a| - 4] && IdentText(id') == b[5..|b| - 4];
    assert IdentText(id)[0] == (if id.Key? then 'k' else 'i');
    if id.Key? {
      assert id.hash == IdentText(id)[4..] && id'.hash == IdentText(id')[4..];
    } else {
      assert id.address == IdentText(id)[3..] && id'.address == IdentText(id')[3..];
    }
  }

  datatype Entry = Entry(count: nat, expiry: Option<nat>)

  datatype Answer =
    | Pending
    | Allowed(remaining: nat)
    | Exceeded(retryAfter: nat)
    | Failed

  /**
   A call whose INCR was executed. `stamp` is the second in which it read the clock; `era` is history:
   how often its counter had been deleted before.
   */
  datatype Call = Call(id: Ident, stamp: nat, era: nat, count: nat, answer: Answer)

  /**
   `now` is Redis's clock; `log` lists the INCRs in the order in which Redis executed them; `wipes` is
   history: how often each key was deleted.
   */
  datatype State = State(now: nat, entries: map<string, Entry>, wipes: map<string, nat>, log: seq<Call>)

  datatype Step =
    | Tick(seconds: nat)
    | Incr(id: Ident, stamp: nat)
    | Reply(i: nat, expireDone: bool, delivered: bool)
    | Wipe(key: string)                      // a DEL, as by the cleanup loop of a starting instance

  const INIT: State := State(0, map[], map[], [])

  function Wipes(wipes: map<string, nat>, key: string): nat { if key in wipes then wipes[key] else 0 }

  function Live(entries: map<string, Entry>, key: string, now: nat): nat {
    if key in entries && (entries[key].expiry.Some? ==> now < entries[key].expiry.value)
    then entries[key].count else 0
  }

  /** INCR: an expired key counts as absent; a present one keeps its expiry. */
  function IncrEntry(entries: map<string, Entry>, key: string, now: nat): Entry {
    var n := Live(entries, key, now);
    Entry(n + 1, if n > 0 then entries[key].expiry else None)
  }

  function Minute(stamp: nat): nat { stamp / 60 }

  function Decide(call: Call): Answer {
    if call.count > Limit(call.id) then Exceeded(60 - call.stamp % 60)
    else Allowed(Limit(call.id) - call.count)
  }

  /** `maxDelay` bounds the time from a call's clock read to its INCR. */
  predicate Enabled(maxDelay: nat, s: State, step: Step) {
    match step
    case Incr(_, stamp) => stamp <= s.now <= stamp + maxDelay
    case Reply(i, _, _) => i < |s.log| && s.log[i].answer.Pending?
    case _ => true
  }

  function KeyOf(call: Call): string { RedisKey(call.id, Minute(call.stamp)) }

  function Apply(s: State, step: Step): State
    requires step.Reply? ==> step.i < |s.log|
  {
    match step
    case Tick(d) => s.(now := s.now + d)
    case Incr(id, stamp) =>
      var key := RedisKey(id, Minute(stamp));
      var entry := IncrEntry(s.entries, key, s.now);
      s.(entries := s.entries[key := entry],
         log := s.log + [Call(id, stamp, Wipes(s.wipes, key), entry.count, Pending)])
    case Reply(i, expireDone, delivered) =>
      var call := s.log[i];
      var key := KeyOf(call);
      var failed := !delivered || (call.count == 1 && !expireDone);
      var next := s.(log := s.log[i := call.(answer := if failed then Failed else Decide(call))]);
      if call.count == 1 && expireDone && Live(s.entries, key, s.now) > 0
      then next.(entries := s.entries[key := s.entries[key].(expiry := Some(s.now + TTL))])
      else next
    case Wipe(key) => s.(entries := s.entries - {key}, wipes := s.wipes[key := Wipes(s.wipes, key) + 1])
  }

  function Next(maxDelay: nat, s: State, step: Step): State {
    if Enabled(maxDelay, s, step) then Apply(s, step) else s
  }

  /** Runs: steps that are not enabled change nothing. */
  function Run(maxDelay: nat, s: State, steps: seq<Step>): State
    decreases |steps|
  {
    if steps == [] then s else Run(maxDelay, Next(maxDelay, s, steps[0]), steps[1..])
  }

  lemma RunCons(maxDelay: nat, s: State, step: Step, steps: seq<Step>)
    ensures Run(maxDelay, s, [step] + steps) == Run(maxDelay, Next(maxDelay, s, step), steps)
  {
    assert ([step] + steps)[1..] == steps;
  }

  lemma RunNone(maxDelay: nat, s: State)
    ensures Run(maxDelay, s, []) == s
  {
  }

  // ----- Counting calls -----

  function Tally(log: seq<Call>, pick: Call -> bool): nat {
    if log == [] then 0
    else
      var n := |log| - 1;
      Tally(log[..n], pick) + if pick(log[n]) then 1 else 0
  }

  function OfMinute(id: Ident, m: nat): Call -> bool { (c: Call) => c.id == id && c.stamp / 60 == m }

  function OfEra(id: Ident, m: nat, era: nat): Call -> bool {
    (c: Call) => c.id == id && Minute(c.stamp) == m && c.era == era
  }

  function BeforeEra(id: Ident, m: nat, era: nat): Call -> bool {
    (c: Call) => c.id == id && Minute(c.stamp) == m && c.era < era
  }

  function OfMinutes(id: Ident, m: nat, minutes: nat): Call -> bool {
    (c: Call) => c.id == id && m <= Minute(c.stamp) < m + minutes
  }

  function OfSpan(id: Ident, from: nat, to: nat): Call -> bool { (c: Call) => c.id == id && from <= c.stamp < to }

  function LetIn(pick: Call -> bool): Call -> bool { (c: Call) => pick(c) && c.answer.Allowed? }

  lemma TallyAppend(log: seq<Call>, call: Call, pick: Call -> bool)
    ensures Tally(log + [call], pick) == Tally(log, pick) + if pick(call) then 1 else 0
  {
    assert (log + [call])[..|log|] == log;
  }

  lemma {:induction false} TallySame(log: seq<Call>, p: Call -> bool, q: Call -> bool)
    requires forall i :: 0 <= i < |log| ==> p(log[i]) == q(log[i])
    ensures Tally(log, p) == Tally(log, q)
  {
    if log == [] {
    } else {
      TallySame(log[..|log| - 1], p, q);
    }
  }

  lemma {:induction false} TallyNone(log: seq<Call>, pick: Call -> bool)
    requires forall i :: 0 <= i < |log| ==> !pick(log[i])
    ensures Tally(log, pick) == 0
  {
    if log == [] {
    } else {
      TallyNone(log[..|log| - 1], pick);
    }
  }

  lemma {:induction false} TallySplit(log: seq<Call>, whole: Call -> bool, p: Call -> bool, q: Call -> bool)
    requires forall i :: 0 <= i < |log| ==> (whole(log[i]) <==> p(log[i]) || q(log[i])) && !(p(log[i]) && q(log[i]))
    ensures Tally(log, whole) == Tally(log, p) + Tally(log, q)
  {
    if log == [] {
    } else {
      TallySplit(log[..|log| - 1], whole, p, q);
    }
  }

  lemma {:induction false} TallyAtMost(log: seq<Call>, p: Call -> bool, q: Call -> bool)
    requires forall i :: 0 <= i < |log| && p(log[i]) ==> q(log[i])
    ensures Tally(log, p) <= Tally(log, q)
  {
    if log == [] {
    } else {
      TallyAtMost(log[..|log| - 1], p, q);
    }
  }

  lemma {:induction false} TallyLess(log: seq<Call>, p: Call -> bool, q: Call -> bool, k: nat)
    requires forall i :: 0 <= i < |log| && p(log[i]) ==> q(log[i])
    requires k < |log| && q(log[k]) && !p(log[k])
    ensures Tally(log, p) < Tally(log, q)
  {
    var n := |log| - 1;
    if k == n {
      TallyAtMost(log[..n], p, q);
    } else {
      TallyLess(log[..n], p, q, k);
    }
  }

  lemma {:induction false} TallyPrefix(log: seq<Call>, i: nat, j: nat, pick: Call -> bool)
    requires i <= j <= |log|
    ensures Tally(log[..i], pick) <= Tally(log[..j], pick)
    decreases j
  {
    if i == j {
    } else {
      TallyPrefix(log, i, j - 1, pick);
      assert log[..j][..j - 1] == log[..j - 1];
    }
  }

  lemma {:induction false} TallyAfterReply(log: seq<Call>, i: nat, answer: Answer, id: Ident, m: nat, era: nat)
    requires i < |log|
    ensures Tally(log[i := log[i].(answer := answer)], OfEra(id, m, era)) == Tally(log, OfEra(id, m, era))
  {
    var n, log' := |log| - 1, log[i := log[i].(answer := answer)];
    if i == n {
      assert log'[..n] == log[..n];
    } else {
      TallyAfterReply(log[..n], i, answer, id, m, era);
      assert log'[..n] == log[..n][i := log[..n][i].(answer := answer)];
    }
  }

  // ----- The invariant -----

  predicate Answered(call: Call) { call.answer.Allowed? || call.answer.Exceeded? }

  predicate AnswerFits(call: Call) { Answered(call) ==> call.answer == Decide(call) }

  function SameEra(call: Call): Call -> bool { OfEra(call.id, Minute(call.stamp), call.era) }

  /** Each call got the next number since its counter was last deleted, and was answered by it. */
  ghost predicate Numbered(log: seq<Call>) {
    forall i :: 0 <= i < |log| ==> log[i].count == Tally(log[..i], SameEra(log[i])) + 1 && AnswerFits(log[i])
  }

  ghost predicate EntryFits(s: State, id: Ident, m: nat) {
    var key := RedisKey(id, m);
    var n := Tally(s.log, OfEra(id, m, Wipes(s.wipes, key)));
    if n == 0 then key !in s.entries
    else
      && key in s.entries && s.entries[key].count == n
      && (s.entries[key].expiry.Some? ==> s.entries[key].expiry.value >= 60 * m + TTL)
  }

  predicate CallFits(s: State, call: Call) { call.stamp <= s.now && call.era <= Wipes(s.wipes, KeyOf(call)) }

  ghost predicate Inv(s: State) {
    && Numbered(s.log)
    && (forall i :: 0 <= i < |s.log| ==> CallFits(s, s.log[i]))
    && (forall id, m: nat :: EntryFits(s, id, m))
  }

  /** Within the delay bound the entry of the call's minute, if any, has not expired. */
  lemma CountIsNext(maxDelay: nat, s: State, id: Ident, stamp: nat)
    requires Inv(s) && maxDelay <= 60 && Enabled(maxDelay, s, Incr(id, stamp))
    ensures var key := RedisKey(id, Minute(stamp));
            IncrEntry(s.entries, key, s.now).count
            == Tally(s.log, OfEra(id, Minute(stamp), Wipes(s.wipes, key))) + 1
  {
    hide Tally, RedisKey, Numbered;
    assert EntryFits(s, id, Minute(stamp));
  }

  lemma IncrKeepsNumbers(log: seq<Call>, call: Call)
    requires Numbered(log) && call.count == Tally(log, SameEra(call)) + 1 && call.answer.Pending?
    ensures Numbered(log + [call])
  {
    hide Tally;
    var log' := log + [call];
    forall i | 0 <= i < |log'| ensures log'[i].count == Tally(log'[..i], SameEra(log'[i])) + 1 && AnswerFits(log'[i]) {
      assert log'[..i] == if i < |log| then log[..i] else log;
    }
  }

  lemma IncrKeepsEntries(maxDelay: nat, s: State, id: Ident, stamp: nat, id': Ident, m: nat)
    requires Inv(s) && maxDelay <= 60 && Enabled(maxDelay, s, Incr(id, stamp))
    ensures EntryFits(Apply(s, Incr(id, stamp)), id', m)
  {
    hide Tally, RedisKey, Numbered;
    var t := Apply(s, Incr(id, stamp));
    CountIsNext(maxDelay, s, id, stamp);
    TallyAppend(s.log, t.log[|s.log|], OfEra(id', m, Wipes(s.wipes, RedisKey(id', m))));
    assert EntryFits(s, id', m);
    if id != id' || m != Minute(stamp) {
      if RedisKey(id, Minute(stamp)) == RedisKey(id', m) {
        RedisKeyInjective(id, Minute(stamp), id', m);
      }
    }
  }

  lemma ReplyKeepsNumbers(log: seq<Call>, i: nat, answer: Answer)
    requires Numbered(log) && i < |log| && (answer == Failed || answer == Decide(log[i]))
    ensures Numbered(log[i := log[i].(answer := answer)])
  {
    hide Tally;
    var log' := log[i := log[i].(answer := answer)];
    forall k | 0 <= k < |log| ensures log'[k].count == Tally(log'[..k], SameEra(log'[k])) + 1 && AnswerFits(log'[k]) {
      assert log[k].count == Tally(log[..k], SameEra(log[k])) + 1;
      if i < k {
        assert log'[..k] == log[..k][i := log[..k][i].(answer := answer)];
        TallyAfterReply(log[..k], i, answer, log[k].id, Minute(log[k].stamp), log[k].era);
      } else {
        assert log'[..k] == log[..k];
      }
    }
  }

  lemma ReplyKeepsEntries(s: State, i: nat, expireDone: bool, delivered: bool, id: Ident, m: nat)
    requires Inv(s) && i < |s.log|
    ensures EntryFits(Apply(s, Reply(i, expireDone, delivered)), id, m)
  {
    hide Tally, RedisKey, Numbered;
    var t := Apply(s, Reply(i, expireDone, delivered));
    var call := s.log[i];
    TallyAfterReply(s.log, i, t.log[i].answer, id, m, Wipes(s.wipes, RedisKey(id, m)));
    assert EntryFits(s, id, m) && CallFits(s, call);
    if KeyOf(call) == RedisKey(id, m) {
      RedisKeyInjective(call.id, Minute(call.stamp), id, m);
    }
  }

  /** A deleted counter starts a new era, in which no call has been counted yet. */
  lemma WipeKeepsEntries(s: State, key: string, id: Ident, m: nat)
    requires Inv(s)
    ensures EntryFits(Apply(s, Wipe(key)), id, m)
  {
    hide Tally, RedisKey, Numbered;
    assert EntryFits(s, id, m);
    if RedisKey(id, m) == key {
      var renewed := OfEra(id, m, Wipes(s.wipes, key) + 1);
      forall i | 0 <= i < |s.log| ensures !renewed(s.log[i]) {
        assert CallFits(s, s.log[i]);
      }
      TallyNone(s.log, renewed);
    }
  }

  lemma TickKeepsEntries(s: State, d: nat, id: Ident, m: nat)
    requires EntryFits(s, id, m)
    ensures EntryFits(Apply(s, Tick(d)), id, m)
  {
  }

  lemma CallsKept(maxDelay: nat, s: State, step: Step, i: nat)
    requires Inv(s) && Enabled(maxDelay, s, step) && i < |Apply(s, step).log|
    ensures CallFits(Apply(s, step), Apply(s, step).log[i])
  {
    hide RedisKey, Tally, Numbered, EntryFits;
    assert i < |s.log| ==> CallFits(s, s.log[i]);
  }

  lemma StepKeepsInv(maxDelay: nat, s: State, step: Step)
    requires Inv(s) && maxDelay <= 60 && Enabled(maxDelay, s, step)
    ensures Inv(Apply(s, step))
  {
    hide EntryFits, RedisKey, Tally, CallFits;
    var t := Apply(s, step);
    forall i | 0 <= i < |t.log| ensures CallFits(t, t.log[i]) { CallsKept(maxDelay, s, step, i); }
    match step
    case Tick(d) =>
      forall id, m: nat ensures EntryFits(t, id, m) { TickKeepsEntries(s, d, id, m); }
    case Incr(id, stamp) =>
      CountIsNext(maxDelay, s, id, stamp);
      IncrKeepsNumbers(s.log, t.log[|s.log|]);
      forall id', m: nat ensures EntryFits(t, id', m) { IncrKeepsEntries(maxDelay, s, id, stamp, id', m); }
    case Reply(i, expireDone, delivered) =>
      ReplyKeepsNumbers(s.log, i, t.log[i].answer);
      forall id, m: nat ensures EntryFits(t, id, m) { ReplyKeepsEntries(s, i, expireDone, delivered, id, m); }
    case Wipe(key) =>
      forall id, m: nat ensures EntryFits(t, id, m) { WipeKeepsEntries(s, key, id, m); }
  }

  lemma ReachableInv(maxDelay: nat, steps: seq<Step>)
    requires maxDelay <= 60
    ensures Inv(Run(maxDelay, INIT, steps))
  {
    RunKeepsInv(maxDelay, INIT, steps);
  }

  lemma {:induction false} RunKeepsInv(maxDelay: nat, s: State, steps: seq<Step>)
    requires Inv(s) && maxDelay <= 60
    ensures Inv(Run(maxDelay, s, steps))
    decreases |steps|
  {
    hide Inv, Apply, Enabled;
    if steps == [] {
    } else {
      if Enabled(maxDelay, s, steps[0]) {
        StepKeepsInv(maxDelay, s, steps[0]);
      }
      RunKeepsInv(maxDelay, Next(maxDelay, s, steps[0]), steps[1..]);
    }
  }

  // ----- When a minute is counted exactly -----

  /** The calls of a minute are numbered 1, 2, 3, .. */
  ghost predicate Exact(log: seq<Call>, id: Ident, m: nat) {
    forall i :: 0 <= i < |log| && OfMinute(id, m)(log[i]) ==> log[i].count == Tally(log[..i], OfMinute(id, m)) + 1
  }

  /** Its counter was not deleted between two of its calls. */
  ghost predicate Unwiped(log: seq<Call>, id: Ident, m: nat) {
    forall i, j :: 0 <= i < j < |log| && OfMinute(id, m)(log[i]) && OfMinute(id, m)(log[j]) ==> log[i].era == log[j].era
  }

  lemma ExactUnwiped(log: seq<Call>, id: Ident, m: nat)
    requires Numbered(log)
    ensures Exact(log, id, m) <==> Unwiped(log, id, m)
  {
    hide Tally;
    if Unwiped(log, id, m) {
      forall i | 0 <= i < |log| && OfMinute(id, m)(log[i])
        ensures log[i].count == Tally(log[..i], OfMinute(id, m)) + 1
      {
        TallySame(log[..i], OfMinute(id, m), SameEra(log[i]));
      }
    }
    if Exact(log, id, m) {
      forall i, j | 0 <= i < j < |log| && OfMinute(id, m)(log[i]) && OfMinute(id, m)(log[j])
        ensures log[i].era == log[j].era
      {
        if log[i].era != log[j].era {
          TallyLess(log[..j], SameEra(log[j]), OfMinute(id, m), i);
        }
      }
    }
  }

  /** In every run each minute is counted exactly, unless its counter is deleted between two of its calls. */
  ghost predicate ExactUnlessWiped(maxDelay: nat) {
    forall steps, id, m: nat ::
      Exact(Run(maxDelay, INIT, steps).log, id, m) <==> Unwiped(Run(maxDelay, INIT, steps).log, id, m)
  }

  function LateSteps(a: Ident): seq<Step> {
    [Incr(a, 0)] + ([Reply(0, true, true)] + ([Tick(120)] + ([Incr(a, 59)] + [])))
  }

  /** A call that reaches Redis 61 s after reading the clock finds its minute's counter expired. */
  lemma LateCallCountsAgain(maxDelay: nat)
    requires maxDelay >= 61
    ensures var log, a := Run(maxDelay, INIT, LateSteps(Ip("a"))).log, Ip("a");
            Unwiped(log, a, 0) && !Exact(log, a, 0)
  {
    hide RedisKey, Tally;
    var a := Ip("a");
    var key := RedisKey(a, 0);
    var s1 := Next(maxDelay, INIT, Incr(a, 0));
    var s2 := Next(maxDelay, s1, Reply(0, true, true));
    var s3 := Next(maxDelay, s2, Tick(120));
    var s4 := Next(maxDelay, s3, Incr(a, 59));
    RunCons(maxDelay, INIT, Incr(a, 0), [Reply(0, true, true)] + ([Tick(120)] + ([Incr(a, 59)] + [])));
    RunCons(maxDelay, s1, Reply(0, true, true), [Tick(120)] + ([Incr(a, 59)] + []));
    RunCons(maxDelay, s2, Tick(120), [Incr(a, 59)] + []);
    RunCons(maxDelay, s3, Incr(a, 59), []);
    assert s1.log == [Call(a, 0, 0, 1, Pending)];
    assert s3.entries[key] == Entry(1, Some(120)) && s3.now == 120;
    assert s4.log == [Call(a, 0, 0, 1, Allowed(9)), Call(a, 59, 0, 1, Pending)];
    OneCall(s4.log, a);
  }

  lemma OneCall(log: seq<Call>, a: Ident)
    requires |log| == 2 && OfMinute(a, 0)(log[0]) && OfMinute(a, 0)(log[1]) && log[1].count == 1
    ensures !Exact(log, a, 0)
  {
    TallyAppend([], log[0], OfMinute(a, 0));
    assert log[..1] == [] + [log[0]];
  }

  /** Deleting the counter of a live minute makes its next call count from 1 again, without any delay. */
  lemma WipedMinuteCountsAgain(maxDelay: nat, a: Ident)
    ensures !Exact(Run(maxDelay, INIT, [Incr(a, 0)] + ([Wipe(RedisKey(a, 0))] + ([Incr(a, 0)] + []))).log, a, 0)
  {
    hide RedisKey, Tally;
    var key := RedisKey(a, 0);
    var s1 := Next(maxDelay, INIT, Incr(a, 0));
    var s2 := Next(maxDelay, s1, Wipe(key));
    var s3 := Next(maxDelay, s2, Incr(a, 0));
    RunCons(maxDelay, INIT, Incr(a, 0), [Wipe(key)] + ([Incr(a, 0)] + []));
    RunCons(maxDelay, s1, Wipe(key), [Incr(a, 0)] + []);
    RunCons(maxDelay, s2, Incr(a, 0), []);
    assert s3.log == [Call(a, 0, 0, 1, Pending), Call(a, 0, 1, 1, Pending)];
    OneCall(s3.log, a);
  }

  /** For every run with delays of at most 60 s, and each minute: it is exact if and only if it is unwiped. */
  lemma MinuteIsExactIff(maxDelay: nat, steps: seq<Step>, id: Ident, m: nat)
    requires maxDelay <= 60
    ensures var log := Run(maxDelay, INIT, steps).log; Exact(log, id, m) <==> Unwiped(log, id, m)
  {
    ReachableInv(maxDelay, steps);
    ExactUnwiped(Run(maxDelay, INIT, steps).log, id, m);
  }

  /** And that equivalence holds over all runs exactly when calls reach Redis within 60 s of their clock read. */
  lemma ExactIffDelayBounded(maxDelay: nat)
    ensures ExactUnlessWiped(maxDelay) <==> maxDelay <= 60
  {
    hide Run, Exact, Unwiped;
    if maxDelay <= 60 {
      forall steps, id, m: nat
        ensures Exact(Run(maxDelay, INIT, steps).log, id, m) <==> Unwiped(Run(maxDelay, INIT, steps).log, id, m)
      {
        MinuteIsExactIff(maxDelay, steps, id, m);
      }
    } else {
      LateCallCountsAgain(maxDelay);
    }
  }

  // ----- Who is let in -----

  ghost predicate AllAnswered(log: seq<Call>, pick: Call -> bool) {
    forall i :: 0 <= i < |log| && pick(log[i]) ==> Answered(log[i])
  }

  lemma NumberedPrefix(log: seq<Call>, n: nat)
    requires Numbered(log) && n <= |log|
    ensures Numbered(log[..n])
  {
    hide Tally;
    forall i | 0 <= i < n ensures log[..n][i].count == Tally(log[..n][..i], SameEra(log[..n][i])) + 1 {
      assert log[..n][..i] == log[..i];
    }
  }

  /** The last call of an era may be let in only if its number is within the limit. */
  lemma LastLetIn(log: seq<Call>, id: Ident, m: nat, era: nat)
    requires Numbered(log) && log != []
    ensures var last, before := log[|log| - 1], Tally(log[..|log| - 1], OfEra(id, m, era));
            OfEra(id, m, era)(last) && Answered(last) ==> (last.answer.Allowed? <==> before + 1 <= Limit(id))
  {
    hide Tally;
    var n := |log| - 1;
    assert log[n].count == Tally(log[..n], SameEra(log[n])) + 1 && AnswerFits(log[n]);
  }

  lemma {:induction false} EraAdmits(log: seq<Call>, id: Ident, m: nat, era: nat)
    requires Numbered(log)
    ensures var pick := OfEra(id, m, era);
            Tally(log, LetIn(pick)) <= Min(Tally(log, pick), Limit(id))
  {
    if log == [] {
    } else {
      NumberedPrefix(log, |log| - 1);
      EraAdmits(log[..|log| - 1], id, m, era);
      LastLetIn(log, id, m, era);
    }
  }

  lemma {:induction false} AnsweredEraAdmits(log: seq<Call>, id: Ident, m: nat, era: nat)
    requires Numbered(log) && AllAnswered(log, OfEra(id, m, era))
    ensures var pick := OfEra(id, m, era);
            Tally(log, LetIn(pick)) == Min(Tally(log, pick), Limit(id))
  {
    if log == [] {
    } else {
      NumberedPrefix(log, |log| - 1);
      AnsweredEraAdmits(log[..|log| - 1], id, m, era);
      LastLetIn(log, id, m, era);
    }
  }

  lemma {:induction false} ErasAdmit(log: seq<Call>, id: Ident, m: nat, eras: nat)
    requires Numbered(log)
    ensures Tally(log, LetIn(BeforeEra(id, m, eras))) <= Product(eras, Limit(id))
  {
    hide Tally, Numbered, Limit;
    if eras == 0 {
      TallyNone(log, LetIn(BeforeEra(id, m, 0)));
    } else {
      ErasAdmit(log, id, m, eras - 1);
      EraAdmits(log, id, m, eras - 1);
      var below, here := LetIn(BeforeEra(id, m, eras - 1)), LetIn(OfEra(id, m, eras - 1));
      TallySplit(log, LetIn(BeforeEra(id, m, eras)), below, here);
      Distribute(eras - 1, 1, Limit(id));
    }
  }

  /** A minute whose counter was deleted `w` times lets at most (w + 1) * limit calls in. */
  lemma MinuteAdmits(s: State, id: Ident, m: nat)
    requires Inv(s)
    ensures Tally(s.log, LetIn(OfMinute(id, m))) <= Product(Wipes(s.wipes, RedisKey(id, m)) + 1, Limit(id))
  {
    hide Tally, RedisKey, EntryFits;
    var eras := Wipes(s.wipes, RedisKey(id, m)) + 1;
    forall i | 0 <= i < |s.log| ensures OfMinute(id, m)(s.log[i]) == BeforeEra(id, m, eras)(s.log[i]) {
      assert CallFits(s, s.log[i]);
    }
    TallySame(s.log, LetIn(OfMinute(id, m)), LetIn(BeforeEra(id, m, eras)));
    ErasAdmit(s.log, id, m, eras);
  }

  lemma UnwipedAdmits(log: seq<Call>, id: Ident, m: nat)
    requires Numbered(log) && Unwiped(log, id, m)
    ensures var pick := OfMinute(id, m);
      && Tally(log, LetIn(pick)) <= Min(Tally(log, pick), Limit(id))
      && (AllAnswered(log, pick) ==> Tally(log, LetIn(pick)) == Min(Tally(log, pick), Limit(id)))
  {
    hide Tally, Numbered, Limit;
    if k :| 0 <= k < |log| && OfMinute(id, m)(log[k]) {
      var era := log[k].era;
      TallySame(log, OfMinute(id, m), OfEra(id, m, era));
      TallySame(log, LetIn(OfMinute(id, m)), LetIn(OfEra(id, m, era)));
      EraAdmits(log, id, m, era);
      if AllAnswered(log, OfMinute(id, m)) {
        AnsweredEraAdmits(log, id, m, era);
      }
    } else {
      TallyNone(log, OfMinute(id, m));
      TallyNone(log, LetIn(OfMinute(id, m)));
    }
  }

  /** What the n-th call of a minute may be answered. */
  predicate Judged(answer: Answer, n: nat, limit: nat) {
    match answer
    case Allowed(remaining) => n + remaining == limit
    case Exceeded(_) => n > limit
    case _ => true
  }

  lemma ExactlyJudged(log: seq<Call>, id: Ident, m: nat)
    requires Numbered(log) && Exact(log, id, m)
    ensures forall i :: 0 <= i < |log| && OfMinute(id, m)(log[i]) ==>
              Judged(log[i].answer, Tally(log[..i], OfMinute(id, m)) + 1, Limit(id))
  {
    hide Tally, Limit;
    forall i | 0 <= i < |log| && OfMinute(id, m)(log[i])
      ensures Judged(log[i].answer, Tally(log[..i], OfMinute(id, m)) + 1, Limit(id))
    {
      assert AnswerFits(log[i]);
    }
  }

  /** Who may be let in within one minute, and what each call is told. */
  ghost predicate WindowFits(log: seq<Call>, wipes: nat, id: Ident, m: nat, limit: nat) {
    var pick := OfMinute(id, m);
    && Tally(log, LetIn(pick)) <= Product(wipes + 1, limit)
    && (Unwiped(log, id, m) ==>
          && Tally(log, LetIn(pick)) <= Min(Tally(log, pick), limit)
          && (AllAnswered(log, pick) ==> Tally(log, LetIn(pick)) == Min(Tally(log, pick), limit))
          && (forall i :: 0 <= i < |log| && pick(log[i]) ==> Judged(log[i].answer, Tally(log[..i], pick) + 1, limit)))
    && (forall i :: 0 <= i < |log| && pick(log[i]) && log[i].answer.Exceeded? ==>
          log[i].stamp + log[i].answer.retryAfter == 60 * (m + 1))
  }

  lemma LimitedWindow(s: State, id: Ident, m: nat)
    requires Inv(s)
    ensures WindowFits(s.log, Wipes(s.wipes, RedisKey(id, m)), id, m, Limit(id))
  {
    hide Tally, RedisKey, Limit, Unwiped, EntryFits, Product, Judged, Wipes, AllAnswered;
    MinuteAdmits(s, id, m);
    if Unwiped(s.log, id, m) {
      UnwipedAdmits(s.log, id, m);
      ExactUnwiped(s.log, id, m);
      ExactlyJudged(s.log, id, m);
    }
    forall i | 0 <= i < |s.log| && OfMinute(id, m)(s.log[i]) && s.log[i].answer.Exceeded?
      ensures s.log[i].stamp + s.log[i].answer.retryAfter == 60 * (m + 1)
    {
      assert AnswerFits(s.log[i]);
    }
  }

  /**
   Main result. In every run with delays of at most 60 s: a minute whose counter was deleted w times lets
   at most (w + 1) * limit calls in, the limit being 100 for an API key and 10 for a client address. If
   none of those deletions fell between two of its calls, its n-th call, when answered, is let in exactly
   if n is within the limit and then told that limit - n remain, so that exactly min(n, limit) of n
   answered calls are let in. A call that is turned away is told to come back exactly when the next minute
   begins.
   */
  lemma WindowIsExact(maxDelay: nat, steps: seq<Step>, id: Ident, m: nat)
    requires maxDelay <= 60
    ensures var s := Run(maxDelay, INIT, steps);
            WindowFits(s.log, Wipes(s.wipes, RedisKey(id, m)), id, m, if id.Key? then 100 else 10)
  {
    hide WindowFits, Run, RedisKey, Wipes, Inv;
    ReachableInv(maxDelay, steps);
    LimitedWindow(Run(maxDelay, INIT, steps), id, m);
  }

  // ----- Any span of time -----

  /** How often the counters of `minutes` minutes were deleted. */
  function WipesIn(wipes: map<string, nat>, id: Ident, m: nat, minutes: nat): nat {
    if minutes == 0 then 0
    else WipesIn(wipes, id, m, minutes - 1) + Wipes(wipes, RedisKey(id, m + minutes - 1))
  }

  lemma {:induction false} MinutesAdmit(s: State, id: Ident, m: nat, minutes: nat)
    requires Inv(s)
    ensures Tally(s.log, LetIn(OfMinutes(id, m, minutes)))
         <= Product(minutes + WipesIn(s.wipes, id, m, minutes), Limit(id))
  {
    hide Inv, Tally, Limit, RedisKey;
    if minutes == 0 {
      TallyNone(s.log, LetIn(OfMinutes(id, m, 0)));
    } else {
      var last := m + minutes - 1;
      MinutesAdmit(s, id, m, minutes - 1);
      MinuteAdmits(s, id, last);
      var earlier, latest := LetIn(OfMinutes(id, m, minutes - 1)), LetIn(OfMinute(id, last));
      TallySplit(s.log, LetIn(OfMinutes(id, m, minutes)), earlier, latest);
      var before, w := minutes - 1 + WipesIn(s.wipes, id, m, minutes - 1), Wipes(s.wipes, RedisKey(id, last));
      Distribute(before, w + 1, Limit(id));
    }
  }

  lemma LimitedSpan(s: State, id: Ident, from: nat, span: nat)
    requires Inv(s)
    ensures var minutes := (span + 59) / 60 + 1;
            Tally(s.log, LetIn(OfSpan(id, from, from + span)))
            <= Product(minutes + WipesIn(s.wipes, id, from / 60, minutes), Limit(id))
  {
    hide Inv, Tally, Limit, WipesIn, Product;
    var m, minutes := from / 60, (span + 59) / 60 + 1;
    MinutesAdmit(s, id, m, minutes);
    forall i | 0 <= i < |s.log| && OfSpan(id, from, from + span)(s.log[i]) ensures OfMinutes(id, m, minutes)(s.log[i]) {
      SpanMinutes(s.log[i].stamp, from, span);
    }
    TallyAtMost(s.log, LetIn(OfSpan(id, from, from + span)), LetIn(OfMinutes(id, m, minutes)));
  }

  /**
   In any `span` seconds at most limit * (ceil(span / 60) + 1 + w) calls of one identifier are let in,
   where w counts the deletions of the counters of those minutes.
   */
  lemma SpanIsBounded(maxDelay: nat, steps: seq<Step>, id: Ident, from: nat, span: nat)
    requires maxDelay <= 60
    ensures var s, minutes := Run(maxDelay, INIT, steps), (span + 59) / 60 + 1;
            Tally(s.log, LetIn(OfSpan(id, from, from + span)))
            <= Product(minutes + WipesIn(s.wipes, id, from / 60, minutes), if id.Key? then 100 else 10)
  {
    hide Run, Inv, Tally, WipesIn, Product, LetIn, OfSpan;
    ReachableInv(maxDelay, steps);
    LimitedSpan(Run(maxDelay, INIT, steps), id, from, span);
  }

  lemma SpanMinutes(stamp: nat, from: nat, span: nat)
    requires from <= stamp < from + span
    ensures from / 60 <= Minute(stamp) < from / 60 + ((span + 59) / 60 + 1)
  {
  }

  // ----- The function as the source writes it -----

  lemma CountedIsLive(entries: map<string, Entry>, key: string, now: nat)
    ensures var entry := IncrEntry(entries, key, now); Live(entries[key := entry], key, now) == entry.count > 0
  {
  }

  lemma ReplyRuns(maxDelay: nat, s: State, i: nat, expireDone: bool, delivered: bool)
    requires i < |s.log| && s.log[i].answer.Pending? && KeyOf(s.log[i]) in s.entries
    requires Live(s.entries, KeyOf(s.log[i]), s.now) > 0
    ensures var call, key := s.log[i], KeyOf(s.log[i]);
            var answer := if !delivered || (call.count == 1 && !expireDone) then Failed else Decide(call);
            Next(maxDelay, s, Reply(i, expireDone, delivered))
            == s.(entries := if call.count == 1 && expireDone
                             then s.entries[key := s.entries[key].(expiry := Some(s.now + TTL))] else s.entries,
                  log := s.log[i := call.(answer := answer)])
  {
    hide Live, KeyOf, Decide;
  }

  /** The INCR of one call and its reply, with nothing in between. */
  lemma CallRuns(s: State, id: Ident, stamp: nat, expireDone: bool, delivered: bool)
    requires stamp <= s.now
    ensures var key := RedisKey(id, stamp / 60);
            var entry := IncrEntry(s.entries, key, s.now);
            var first := entry.count == 1;
            var call := Call(id, stamp, Wipes(s.wipes, key), entry.count, Pending);
            var answer := if !delivered || (first && !expireDone) then Failed else Decide(call);
            Run(s.now - stamp, s, [Incr(id, stamp)] + ([Reply(|s.log|, expireDone, delivered)] + []))
            == s.(entries := s.entries[key := if first && expireDone
                                              then entry.(expiry := Some(s.now + TTL)) else entry],
                  log := s.log + [call.(answer := answer)])
  {
    hide RedisKey, Decide, Wipes, Live, IncrEntry, Run, Next;
    var key, i, late := RedisKey(id, stamp / 60), |s.log|, s.now - stamp;
    var entry := IncrEntry(s.entries, key, s.now);
    var call := Call(id, stamp, Wipes(s.wipes, key), entry.count, Pending);
    var s1 := s.(entries := s.entries[key := entry], log := s.log + [call]);
    IncrRuns(s, id, stamp);
    CountedIsLive(s.entries, key, s.now);
    var reply := Reply(i, expireDone, delivered);
    ReplyRuns(late, s1, i, expireDone, delivered);
    RunCons(late, s, Incr(id, stamp), [reply] + []);
    RunCons(late, s1, reply, []);
    RunNone(late, Next(late, s1, reply));
    assert forall c :: s1.log[i := c] == s.log + [c];
  }

  lemma IncrRuns(s: State, id: Ident, stamp: nat)
    requires stamp <= s.now
    ensures var key := RedisKey(id, stamp / 60);
            var entry := IncrEntry(s.entries, key, s.now);
            Next(s.now - stamp, s, Incr(id, stamp))
            == s.(entries := s.entries[key := entry],
                  log := s.log + [Call(id, stamp, Wipes(s.wipes, key), entry.count, Pending)])
  {
    hide RedisKey, Wipes, IncrEntry;
  }

  class Limiter {
    var now: nat
    var entries: map<string, Entry>
    ghost var wipes: map<string, nat>
    ghost var log: seq<Call>

    ghost function View(): State
      reads this
    {
      State(now, entries, wipes, log)
    }

    /** `incr_with_expire`: INCR, then EXPIRE as a second command for the first count only. */
    method IncrWithExpire(key: string, ttl: nat, expireDone: bool, delivered: bool) returns (r: Option<nat>)
      modifies this`entries
      ensures var live := key in old(entries)
                          && (old(entries)[key].expiry.Some? ==> now < old(entries)[key].expiry.value);
              var n := 1 + if live then old(entries)[key].count else 0;
        && r == (if !delivered || (n == 1 && !expireDone) then None else Some(n))
        && key in entries && entries == old(entries)[key := entries[key]] && entries[key].count == n
        && entries[key].expiry == if n > 1 then old(entries)[key].expiry
                                  else if expireDone then Some(now + ttl) else None
    {
      var entry := IncrEntry(entries, key, now);
      entries := entries[key := entry];
      if entry.count == 1 {
        if !expireDone {
          return None;
        }
        entries := entries[key := entries[key].(expiry := Some(now + ttl))];
      }
      r := if delivered then Some(entry.count) else None;
    }

    /** `check_and_increment` for a call that read the clock at `stamp`; `Failed` is the error. */
    method CheckAndIncrement(id: Ident, stamp: nat, expireDone: bool, delivered: bool) returns (answer: Answer)
      requires stamp <= now
      modifies this`entries, this`log
      ensures View() == Run(now - stamp, old(View()),
                            [Incr(id, stamp)] + ([Reply(|old(log)|, expireDone, delivered)] + []))
      ensures |log| == |old(log)| + 1 && log[|old(log)|].answer == answer
      ensures var key := "rate:" + (if id.Key? then "key:" + id.hash else "ip:" + id.address)
                         + ":min:" + Decimal(stamp / 60);
              var live := key in old(entries)
                          && (old(entries)[key].expiry.Some? ==> now < old(entries)[key].expiry.value);
              var n := 1 + if live then old(entries)[key].count else 0;
        && (answer == Failed <==> !delivered || (n == 1 && !expireDone))
        && (answer.Allowed? ==> n + answer.remaining == if id.Key? then 100 else 10)
        && (answer.Exceeded? ==> n > (if id.Key? then 100 else 10) && answer.retryAfter == 60 - stamp % 60)
        && key in entries && entries == old(entries)[key := entries[key]] && entries[key].count == n
        && entries[key].expiry == if n > 1 then old(entries)[key].expiry
                                  else if expireDone then Some(now + 120) else None
    {
      RedisKeyText(id, stamp / 60);
      hide RedisKey, Run, Decimal, Wipes;
      var key := RedisKey(id, stamp / 60);
      ghost var s0 := View();
      var count := IncrWithExpire(key, TTL, expireDone, delivered);
      if count.None? {
        answer := Failed;
      } else if count.value > Limit(id) {
        answer := Exceeded(60 - stamp % 60);
      } else {
        answer := Allowed(Limit(id) - count.value);
      }
      log := log + [Call(id, stamp, Wipes(wipes, key), IncrEntry(s0.entries, key, now).count, answer)];
      CallRuns(s0, id, stamp, expireDone, delivered);
    }
  }
}
