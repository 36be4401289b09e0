/**
 The parallel vanity-salt miner (src/services/token/salt.rs). Chunk closures run on any number of
 threads, share a relaxed flag and a locked result, and give up when they see the flag. The model
 is a state machine with one worker per chunk; every interleaving is a sequence of steps.
 */
module SaltMiner {
  import opened Arithmetic
  import opened Prelude
  import opened SaltAddress
  import opened Text

  const MAX_ITERATIONS: nat := 10_000_000
  const CHUNK_SIZE: nat := 10_000

  /** One mining request. `suffix` is the text as configured; mining compares in lower case. */
  datatype Job = Job(
    keccak: Keccak, deployer: Address, implementation: Address, suffix: string,
    start: nat, max: nat, chunk: nat)

  datatype Mined = Mined(salt: Digest, address: Address, iterations: nat)

  // ----- The search the miner has to refine -----

  /** `start.wrapping_add(i)` in 256 bits, big-endian. */
  function SaltAt(job: Job, i: nat): Digest {
    ToBytes((job.start + i) % Pow(256, 32), 32)
  }

  function AddressAt(job: Job, i: nat): Address {
    Create2Address(job.keccak, job.deployer, job.implementation, SaltAt(job, i))
  }

  predicate Hit(job: Job, i: nat) { AddressEndsWith(AddressAt(job, i), Lower(job.suffix)) }

  function MinedAt(job: Job, i: nat): Mined { Mined(SaltAt(job, i), AddressAt(job, i), i + 1) }

  // ----- The same search, said without the functions that compute it -----

  /** `m` records attempt `i`: the salt `start + i` in 256 bits, the address CREATE2 gives it, and the count. */
  ghost predicate Records(job: Job, i: nat, m: Mined) {
    && ByteValue(m.salt) == (job.start + i) % Pow(256, 32)
    && IsCreate2(job.keccak, job.deployer, job.implementation, m.salt, m.address)
    && m.iterations == i + 1
  }

  /** The hex text of the address ends with the suffix, letter case aside. */
  predicate Carries(address: Address, suffix: string) {
    |suffix| <= 40 && HexEncode(address)[40 - |suffix|..] == Lower(suffix)
  }

  /** The record of a matching attempt within the bound. */
  ghost predicate IsMatch(job: Job, m: Mined) {
    exists i: nat :: i < job.max && Records(job, i, m) && Carries(m.address, job.suffix)
  }

  ghost predicate SomeMatch(job: Job) { exists m :: IsMatch(job, m) }

  lemma RecordsIff(job: Job, i: nat, m: Mined)
    ensures Records(job, i, m) <==> m == MinedAt(job, i)
  {
    hide Pow, ByteValue, IsCreate2, Create2Address;
    var n := (job.start + i) % Pow(256, 32);
    ToBytesRoundTrip(n, 32);
    RemainderOf(n, 0, Pow(256, 32), n);
    Create2AddressIff(job.keccak, job.deployer, job.implementation, m.salt, m.address);
    if ByteValue(m.salt) == n {
      ByteValueInjective(m.salt, SaltAt(job, i));
    }
  }

  lemma HitIff(job: Job, i: nat)
    ensures Hit(job, i) <==> Carries(AddressAt(job, i), job.suffix)
  {
  }

  /** A match, in terms of the functions that compute it. */
  ghost predicate Found(job: Job, m: Mined) {
    exists i: nat :: i < job.max && Hit(job, i) && m == MinedAt(job, i)
  }

  lemma MatchIff(job: Job, m: Mined)
    ensures IsMatch(job, m) <==> Found(job, m)
  {
    hide Hit, Carries, Records, SaltAt, AddressAt;
    forall i: nat
      ensures Records(job, i, m) && Carries(m.address, job.suffix) <==> Hit(job, i) && m == MinedAt(job, i)
    {
      RecordsIff(job, i, m);
      HitIff(job, i);
    }
  }

  lemma SomeMatchIff(job: Job)
    ensures SomeMatch(job) <==> exists i: nat :: i < job.max && Hit(job, i)
  {
    hide Hit, IsMatch, MinedAt;
    if SomeMatch(job) {
      var m :| IsMatch(job, m);
      MatchIff(job, m);
    }
    if i: nat :| i < job.max && Hit(job, i) {
      MatchIff(job, MinedAt(job, i));
      assert Found(job, MinedAt(job, i));
    }
  }

  ghost predicate NoHit(job: Job, lo: nat, hi: nat) { forall i :: lo <= i < hi ==> !Hit(job, i) }

  /** Within one run of at most 2^256 attempts no salt is tried twice. */
  lemma SaltsDistinct(job: Job, i: nat, j: nat)
    requires i < j < job.max <= Pow(256, 32)
    ensures SaltAt(job, i) != SaltAt(job, j)
  {
    hide Pow, ToBytes, ByteValue;
    var p := Pow(256, 32);
    ToBytesRoundTrip((job.start + i) % p, 32);
    ToBytesRoundTrip((job.start + j) % p, 32);
    RemaindersDiffer(job.start + i, job.start + j, p);
  }

  lemma RemaindersDiffer(a: nat, b: nat, p: nat)
    requires a < b < a + p
    ensures a % p != b % p && a % p % p == a % p && b % p % p == b % p
  {
    RemainderOf(a % p, 0, p, a % p);
    RemainderOf(b % p, 0, p, b % p);
    NotCongruent(a / p, a % p, b / p, b % p, p, a, b);
  }

  lemma NotCongruent(x: nat, r: nat, y: nat, s: nat, p: nat, a: nat, b: nat)
    requires a == x * p + r && b == y * p + s && a < b < a + p
    ensures r != s
  {
    if x < y {
      MulMonotone(x + 1, y, p);
    } else {
      MulMonotone(y, x, p);
    }
  }

  // ----- Chunks -----

  /** `MAX_ITERATIONS.div_ceil(CHUNK_SIZE)` */
  function NumChunks(job: Job): nat
    requires job.chunk > 0
  {
    (job.max + job.chunk - 1) / job.chunk
  }

  function ChunkStart(job: Job, w: nat): nat { w * job.chunk }

  function ChunkEnd(job: Job, w: nat): nat {
    if (w + 1) * job.chunk < job.max then (w + 1) * job.chunk else job.max
  }

  /** The chunks cover every attempt, and attempt `i` lies in chunk `i / chunk` only. */
  lemma ChunksPartition(job: Job, i: nat)
    requires job.chunk > 0 && i < job.max
    ensures i / job.chunk < NumChunks(job)
    ensures forall w: nat {:trigger ChunkStart(job, w)} ::
              ChunkStart(job, w) <= i < ChunkEnd(job, w) <==> w == i / job.chunk
  {
    var c := job.chunk;
    CoversAttempt(i, job.max, c);
    forall w: nat
      ensures ChunkStart(job, w) <= i < ChunkEnd(job, w) <==> w == i / c
    {
      MultipleAround(w, c, i);
    }
  }

  lemma CoversAttempt(i: nat, max: nat, c: nat)
    requires c > 0 && i < max
    ensures i / c < (max + c - 1) / c
  {
    var n := (max + c - 1) / c;
    assert n * c + (max + c - 1) % c == max + c - 1;
    assert (i / c) * c + i % c == i;
    if n <= i / c {
      MulMonotone(n, i / c, c);
    }
  }

  lemma MultipleAround(w: nat, c: nat, i: nat)
    requires c > 0
    ensures w * c <= i < (w + 1) * c <==> w == i / c
  {
    if w < i / c {
      MulMonotone(w + 1, i / c, c);
    } else if i / c < w {
      MulMonotone(i / c + 1, w, c);
    }
  }

  // ----- Workers -----

  /** Where the closure for one chunk stands. `i` is the attempt it is working on. */
  datatype Worker =
    | Waiting
    | Scanning(i: nat)   // about to load the flag
    | Testing(i: nat)    // flag seen clear, about to test attempt i
    | Storing(i: nat)    // attempt i matched, about to store the flag
    | Writing(i: nat)    // flag stored, about to write the result under the lock
    | Done(some: bool)   // returned Some or None

  datatype State = State(workers: seq<Worker>, flag: bool, result: Option<Mined>)

  /** `seen` is what a relaxed load returns; a clear answer may be stale. */
  datatype Step =
    | Begin(w: nat, seen: bool)
    | Load(w: nat, seen: bool)
    | Test(w: nat)
    | Store(w: nat)
    | Write(w: nat)
    | Skip(w: nat)       // find_map_any does not start this chunk any more

  function Init(job: Job): State
    requires job.chunk > 0
  {
    State(seq(NumChunks(job), _ => Waiting), false, None)
  }

  predicate Enabled(job: Job, s: State, step: Step) {
    && step.w < |s.workers|
    && match step
       case Begin(w, seen) => s.workers[w].Waiting? && (seen ==> s.flag)
       case Load(w, seen) => s.workers[w].Scanning? && (seen ==> s.flag)
       case Test(w) => s.workers[w].Testing?
       case Store(w) => s.workers[w].Storing?
       case Write(w) => s.workers[w].Writing?
       case Skip(w) => s.workers[w].Waiting? && exists v :: 0 <= v < |s.workers| && s.workers[v] == Done(true)
  }

  function AfterBegin(job: Job, w: nat): Worker {
    if ChunkStart(job, w) < ChunkEnd(job, w) then Scanning(ChunkStart(job, w)) else Done(false)
  }

  function AfterMiss(job: Job, w: nat, i: nat): Worker {
    if i + 1 < ChunkEnd(job, w) then Scanning(i + 1) else Done(false)
  }

  function Apply(job: Job, s: State, step: Step): State
    requires Enabled(job, s, step)
  {
    var w := step.w;
    match step
    case Begin(_, seen) => s.(workers := s.workers[w := if seen then Done(false) else AfterBegin(job, w)])
    case Load(_, seen) => s.(workers := s.workers[w := if seen then Done(false) else Testing(s.workers[w].i)])
    case Test(_) =>
      var i := s.workers[w].i;
      s.(workers := s.workers[w := if Hit(job, i) then Storing(i) else AfterMiss(job, w, i)])
    case Store(_) => s.(workers := s.workers[w := Writing(s.workers[w].i)], flag := true)
    case Write(_) =>
      s.(workers := s.workers[w := Done(true)], result := Some(MinedAt(job, s.workers[w].i)))
    case Skip(_) => s.(workers := s.workers[w := Done(false)])
  }

  predicate IsRun(job: Job, s: State, steps: seq<Step>)
    decreases |steps|
  {
    steps == [] || (Enabled(job, s, steps[0]) && IsRun(job, Apply(job, s, steps[0]), steps[1..]))
  }

  function Run(job: Job, s: State, steps: seq<Step>): State
    requires IsRun(job, s, steps)
    decreases |steps|
  {
    if steps == [] then s else Run(job, Apply(job, s, steps[0]), steps[1..])
  }

  predicate Finished(s: State) { forall w :: 0 <= w < |s.workers| ==> s.workers[w].Done? }

  // ----- What every step keeps -----

  ghost predicate WorkerInv(job: Job, s: State, w: nat)
    requires w < |s.workers|
  {
    match s.workers[w]
    case Waiting => true
    case Scanning(i) => ChunkStart(job, w) <= i < ChunkEnd(job, w) && NoHit(job, ChunkStart(job, w), i)
    case Testing(i) => ChunkStart(job, w) <= i < ChunkEnd(job, w) && NoHit(job, ChunkStart(job, w), i)
    case Storing(i) => i < job.max && Hit(job, i)
    case Writing(i) => i < job.max && Hit(job, i) && s.flag
    case Done(some) =>
      if some then s.result.Some?
      else s.flag || NoHit(job, ChunkStart(job, w), ChunkEnd(job, w))
  }

  ghost predicate Inv(job: Job, s: State) {
    && job.chunk > 0 && |s.workers| == NumChunks(job)
    && (forall w :: 0 <= w < |s.workers| ==> WorkerInv(job, s, w))
    && (s.result.Some? ==> s.flag && Found(job, s.result.value))
    // the flag is never set without a result that is there or about to be written
    && (s.flag && s.result.None? ==> exists w :: 0 <= w < |s.workers| && s.workers[w].Writing?)
  }

  lemma MovedWorkerInv(job: Job, s: State, step: Step)
    requires Inv(job, s) && Enabled(job, s, step)
    ensures WorkerInv(job, Apply(job, s, step), step.w)
  {
    hide Hit, MinedAt;
    var w := step.w;
    assert WorkerInv(job, s, w);
    if step.Skip? {
      var d :| 0 <= d < |s.workers| && s.workers[d] == Done(true);
      assert WorkerInv(job, s, d);
    }
  }

  lemma OtherWorkerInv(job: Job, s: State, step: Step, v: nat)
    requires Inv(job, s) && Enabled(job, s, step) && v < |s.workers| && v != step.w
    ensures WorkerInv(job, Apply(job, s, step), v)
  {
    var t := Apply(job, s, step);
    assert WorkerInv(job, s, v);
    assert t.workers[v] == s.workers[v] && (s.flag ==> t.flag) && (s.result.Some? ==> t.result.Some?);
  }

  lemma ResultInv(job: Job, s: State, step: Step)
    requires Inv(job, s) && Enabled(job, s, step)
    ensures var t := Apply(job, s, step);
      && (t.result.Some? ==> t.flag && Found(job, t.result.value))
      && (t.flag && t.result.None? ==> exists w :: 0 <= w < |t.workers| && t.workers[w].Writing?)
  {
    hide Hit, MinedAt;
    var t := Apply(job, s, step);
    assert WorkerInv(job, s, step.w);
    if step.Store? {
      assert t.workers[step.w].Writing?;
    } else if !step.Write? && t.flag && t.result.None? {
      var v :| 0 <= v < |s.workers| && s.workers[v].Writing?;
      assert t.workers[v].Writing?;
    }
  }

  lemma StepKeepsInv(job: Job, s: State, step: Step)
    requires Inv(job, s) && Enabled(job, s, step)
    ensures Inv(job, Apply(job, s, step))
  {
    var t := Apply(job, s, step);
    forall v | 0 <= v < |t.workers| ensures WorkerInv(job, t, v) {
      if v == step.w {
        MovedWorkerInv(job, s, step);
      } else {
        OtherWorkerInv(job, s, step, v);
      }
    }
    ResultInv(job, s, step);
  }

  lemma {:induction false} RunKeepsInv(job: Job, s: State, steps: seq<Step>)
    requires Inv(job, s) && IsRun(job, s, steps)
    ensures Inv(job, Run(job, s, steps))
    decreases |steps|
  {
    if steps == [] {
    } else {
      StepKeepsInv(job, s, steps[0]);
      RunKeepsInv(job, Apply(job, s, steps[0]), steps[1..]);
    }
  }

  /** When every closure has returned, the result is there exactly if some attempt matches. */
  lemma FinishedIsExact(job: Job, s: State)
    requires Inv(job, s) && Finished(s)
    ensures s.result.Some? <==> exists i: nat :: i < job.max && Hit(job, i)
  {
    if s.result.None? {
      forall i: nat | i < job.max ensures !Hit(job, i) {
        ChunksPartition(job, i);
        var w := i / job.chunk;
        assert WorkerInv(job, s, w);
        assert ChunkStart(job, w) <= i < ChunkEnd(job, w);
      }
    }
  }

  // ----- Every run ends -----

  function Rank(job: Job, w: nat, worker: Worker): nat {
    match worker
    case Waiting => 2 * Left(job, w, ChunkStart(job, w)) + 5
    case Scanning(i) => 2 * Left(job, w, i) + 3
    case Testing(i) => 2 * Left(job, w, i) + 2
    case Storing(_) => 2
    case Writing(_) => 1
    case Done(_) => 0
  }

  function Left(job: Job, w: nat, i: nat): nat { if i < ChunkEnd(job, w) then ChunkEnd(job, w) - i else 0 }

  function Remaining(job: Job, workers: seq<Worker>): nat {
    if workers == [] then 0
    else Remaining(job, workers[..|workers| - 1]) + Rank(job, |workers| - 1, workers[|workers| - 1])
  }

  lemma {:induction false} RemainingUpdate(job: Job, workers: seq<Worker>, w: nat, worker: Worker)
    requires w < |workers|
    ensures Remaining(job, workers[w := worker]) + Rank(job, w, workers[w])
         == Remaining(job, workers) + Rank(job, w, worker)
  {
    var n := |workers| - 1;
    if w < n {
      RemainingUpdate(job, workers[..n], w, worker);
      assert workers[w := worker][..n] == workers[..n][w := worker];
    } else {
      assert workers[w := worker][..n] == workers[..n];
    }
  }

  lemma StepDecreases(job: Job, s: State, step: Step)
    requires Inv(job, s) && Enabled(job, s, step)
    ensures Remaining(job, Apply(job, s, step).workers) < Remaining(job, s.workers)
  {
    assert WorkerInv(job, s, step.w);
    RemainingUpdate(job, s.workers, step.w, Apply(job, s, step).workers[step.w]);
  }

  lemma {:induction false} RunIsBounded(job: Job, s: State, steps: seq<Step>)
    requires Inv(job, s) && IsRun(job, s, steps)
    ensures |steps| + Remaining(job, Run(job, s, steps).workers) <= Remaining(job, s.workers)
    decreases |steps|
  {
    if steps == [] {
    } else {
      StepKeepsInv(job, s, steps[0]);
      StepDecreases(job, s, steps[0]);
      RunIsBounded(job, Apply(job, s, steps[0]), steps[1..]);
    }
  }

  /** No worker can be stuck: whatever is unfinished has a step to take. */
  lemma NoDeadlock(job: Job, s: State, w: nat)
    requires w < |s.workers| && !s.workers[w].Done?
    ensures exists step: Step :: step.w == w && Enabled(job, s, step)
  {
    var step := match s.workers[w]
      case Waiting => Begin(w, false)
      case Scanning(_) => Load(w, false)
      case Testing(_) => Test(w)
      case Storing(_) => Store(w)
      case _ => Write(w);
    assert step.w == w && Enabled(job, s, step);
  }

  /**
   Main result. Every interleaving, stale loads and early exits included, is finite and can always
   be continued until all closures have returned; the miner then reports a result exactly when
   some attempt within the bound matches, and what it reports is a match with the right salt,
   address and attempt count.
   */
  lemma MinerRefinesSearch(job: Job, steps: seq<Step>)
    requires job.chunk > 0 && IsRun(job, Init(job), steps)
    ensures var s := Run(job, Init(job), steps);
      && |steps| <= Remaining(job, Init(job).workers)
      && (!Finished(s) ==> exists step :: Enabled(job, s, step))
      && (s.result.Some? ==> IsMatch(job, s.result.value))
      && (Finished(s) ==> (s.result.Some? <==> SomeMatch(job)))
  {
    hide Run, IsMatch, SomeMatch, Hit, MinedAt, Found;
    SomeMatchIff(job);
    var s := Run(job, Init(job), steps);
    RunKeepsInv(job, Init(job), steps);
    RunIsBounded(job, Init(job), steps);
    if s.result.Some? {
      MatchIff(job, s.result.value);
    }
    if Finished(s) {
      FinishedIsExact(job, s);
    } else {
      var w :| 0 <= w < |s.workers| && !s.workers[w].Done?;
      NoDeadlock(job, s, w);
    }
  }

  /**
   The same for a hex suffix, in numbers: a finished run has a result exactly when, for some
   attempt, the CREATE2 address is congruent to the suffix value modulo 16^k.
   */
  lemma MinerFindsCongruentAddress(job: Job, steps: seq<Step>)
    requires job.chunk > 0 && IsRun(job, Init(job), steps) && Finished(Run(job, Init(job), steps))
    requires AllHex(job.suffix) && |job.suffix| <= 40
    ensures Run(job, Init(job), steps).result.Some? <==>
            exists i: nat, m :: i < job.max && Records(job, i, m) && Congruent(m.address, job.suffix)
  {
    hide Run, IsRun, Finished, Records, Congruent, Carries;
    MinerRefinesSearch(job, steps);
    forall m: Mined ensures Congruent(m.address, job.suffix) <==> Carries(m.address, job.suffix) {
      CongruentIff(m.address, job.suffix);
    }
    MatchUnfolds(job);
  }

  lemma MatchUnfolds(job: Job)
    ensures SomeMatch(job) <==> exists i: nat, m :: i < job.max && Records(job, i, m) && Carries(m.address, job.suffix)
  {
    hide Records, Carries;
    if i: nat, m :| i < job.max && Records(job, i, m) && Carries(m.address, job.suffix) {
      assert IsMatch(job, m);
    }
  }

  lemma CongruentIff(address: Address, suffix: string)
    requires AllHex(suffix) && |suffix| <= 40
    ensures Congruent(address, suffix) <==> Carries(address, suffix)
  {
    hide HexEncode, Pow, ByteValue, HexValue;
    SuffixTestIsArithmetic(address, suffix);
  }

  predicate Congruent(address: Address, suffix: string)
    requires AllHex(suffix)
  {
    ByteValue(address) % Pow(16, |suffix|) == HexValue(suffix)
  }

  /** The job the service runs: the configured bound and chunk size. */
  function ConfiguredJob(keccak: Keccak, deployer: Address, implementation: Address, suffix: string, start: nat): Job {
    Job(keccak, deployer, implementation, suffix, start, MAX_ITERATIONS, CHUNK_SIZE)
  }

  /** With the service's constants: 1000 chunks, no salt twice, and an exact search of ten million salts. */
  lemma ConfiguredSearch(
      keccak: Keccak, deployer: Address, implementation: Address, suffix: string, start: nat, steps: seq<Step>)
    requires var job := ConfiguredJob(keccak, deployer, implementation, suffix, start);
             IsRun(job, Init(job), steps) && Finished(Run(job, Init(job), steps))
    ensures var job := ConfiguredJob(keccak, deployer, implementation, suffix, start);
      && NumChunks(job) == 1000
      && (forall i: nat, j: nat :: i < j < 10_000_000 ==> SaltAt(job, i) != SaltAt(job, j))
      && (Run(job, Init(job), steps).result.Some? <==>
            exists i: nat, m :: i < 10_000_000 && Records(job, i, m) && Carries(m.address, job.suffix))
  {
    hide Run, IsRun, Finished, Records, Carries, SaltAt;
    var job := ConfiguredJob(keccak, deployer, implementation, suffix, start);
    MinerRefinesSearch(job, steps);
    MatchUnfolds(job);
    ManySalts();
    forall i: nat, j: nat | i < j < 10_000_000 ensures SaltAt(job, i) != SaltAt(job, j) {
      SaltsDistinct(job, i, j);
    }
  }

  /** The bound is far below the number of salts. */
  lemma ManySalts()
    ensures MAX_ITERATIONS <= Pow(256, 32)
  {
    assert Pow(256, 3) == 256 * (256 * (256 * Pow(256, 0)));
    PowGrows(256, 3, 32);
  }

  lemma {:induction false} PowGrows(base: nat, i: nat, j: nat)
    requires base > 0 && i <= j
    ensures Pow(base, i) <= Pow(base, j)
    decreases j
  {
    if i == j {
    } else {
      PowGrows(base, i, j - 1);
      MulMonotone(1, base, Pow(base, j - 1));
    }
  }

  // ----- The closure as the source writes it -----

  /** The body of the scan: derive the salt, compute the address, compare the suffix. */
  method TryAttempt(job: Job, i: nat) returns (hit: bool, mined: Mined)
    ensures hit == Hit(job, i) && mined == MinedAt(job, i)
  {
    var salt := SaltAt(job, i);
    var address := ComputeCreate2Address(job.keccak, job.deployer, job.implementation, salt);
    hit := AddressEndsWith(address, Lower(job.suffix));
    mined := Mined(salt, address, i + 1);
  }

  class SharedSearch {
    var found: bool
    var result: Option<Mined>

    constructor ()
      ensures !found && result == None
    {
      found := false;
      result := None;
    }

    /** One chunk closure. `entrySeen` and `seen(i)` are what its relaxed loads return. */
    method ScanChunk(job: Job, w: nat, entrySeen: bool, seen: nat -> bool) returns (r: Option<Mined>)
      modifies this
      ensures r.Some? ==> found && result == r
      ensures r.Some? ==> exists i: nat :: ChunkStart(job, w) <= i < ChunkEnd(job, w) && Hit(job, i) &&
                                           NoHit(job, ChunkStart(job, w), i) && r == Some(MinedAt(job, i))
      ensures r.None? ==> found == old(found) && result == old(result)
      ensures r.None? ==> entrySeen || NoHit(job, ChunkStart(job, w), ChunkEnd(job, w)) ||
                             exists i: nat :: ChunkStart(job, w) <= i < ChunkEnd(job, w) && seen(i)
    {
      hide Hit, MinedAt;
      if entrySeen {
        return None;
      }
      var i := ChunkStart(job, w);
      while i < ChunkEnd(job, w)
        invariant ChunkStart(job, w) <= i && NoHit(job, ChunkStart(job, w), i)
        invariant found == old(found) && result == old(result)
      {
        if seen(i) {
          return None;
        }
        var hit, mined := TryAttempt(job, i);
        if hit {
          found := true;
          result := Some(mined);
          return result;
        }
        i := i + 1;
      }
      return None;
    }
  }

  /** A single thread taking the chunks in order: the search the parallel miner refines. */
  method MineInOrder(job: Job) returns (r: Option<Mined>)
    requires job.chunk > 0
    ensures r.Some? <==> SomeMatch(job)
    ensures r.Some? ==> IsMatch(job, r.value) && forall m :: IsMatch(job, m) ==> r.value.iterations <= m.iterations
  {
    hide Hit, MinedAt, IsMatch, SomeMatch, ChunkStart, ChunkEnd, NumChunks;
    SomeMatchIff(job);
    var shared := new SharedSearch();
    var w := 0;
    NothingBefore(job);
    while w < NumChunks(job)
      invariant !shared.found && shared.result == None
      invariant MissedBefore(job, w)
    {
      r := shared.ScanChunk(job, w, false, _ => false);
      if r.Some? {
        FirstIsLeast(job, w, r.value);
        return r;
      }
      MissedChunk(job, w);
      w := w + 1;
    }
    AllMissed(job, w);
    return None;
  }

  ghost predicate MissedBefore(job: Job, w: nat) {
    forall i: nat :: i < ChunkStart(job, w) && i < job.max ==> !Hit(job, i)
  }

  lemma NothingBefore(job: Job)
    ensures MissedBefore(job, 0)
  {
  }

  lemma MissedChunk(job: Job, w: nat)
    requires MissedBefore(job, w) && NoHit(job, ChunkStart(job, w), ChunkEnd(job, w))
    ensures MissedBefore(job, w + 1)
  {
    hide Hit;
  }

  lemma AllMissed(job: Job, w: nat)
    requires job.chunk > 0 && NumChunks(job) <= w && MissedBefore(job, w)
    ensures NoHit(job, 0, job.max)
  {
    hide Hit;
    forall i: nat | i < job.max ensures !Hit(job, i) {
      ChunksPartition(job, i);
      MulMonotone(i / job.chunk + 1, w, job.chunk);
    }
  }

  /** The record of the first hit counts the fewest attempts. */
  lemma FirstIsLeast(job: Job, w: nat, first: Mined)
    requires MissedBefore(job, w)
    requires exists i: nat :: ChunkStart(job, w) <= i < ChunkEnd(job, w) && Hit(job, i) &&
                              NoHit(job, ChunkStart(job, w), i) && first == MinedAt(job, i)
    ensures IsMatch(job, first) && SomeMatch(job)
    ensures forall m :: IsMatch(job, m) ==> first.iterations <= m.iterations
  {
    hide Hit, IsMatch, SaltAt, AddressAt, ChunkStart;
    MatchIff(job, first);
    forall m | IsMatch(job, m) ensures first.iterations <= m.iterations {
      MatchIff(job, m);
    }
  }
}
