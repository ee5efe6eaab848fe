/**
 The chunk store's quota (`src/storage/chunks.rs`): puts, deletes and reads run by many threads against one
 atomic counter and a directory of files, as interleaved steps with a program counter per thread.  A file
 holds either nothing or the whole chunk, and the hash of a chunk determines its length.
 */
module ChunkStores {
  import opened NodeIds

  const MAX_CHUNK_SIZE := 4194304

  type Hash = NodeId
  type Sizes = Hash -> nat

  datatype Pc =
    | Idle
    | Checked(h: Hash)               // put: no file found, about to reserve
    | Reserved(h: Hash, prev: int)   // put: counter raised, previous value in hand
    | Writing(h: Hash)               // put: within quota, about to create the file
    | Rejected(h: Hash)              // put: over quota, about to lower the counter again
    | Failed(h: Hash)                // put: creating the file failed, about to lower the counter again
    | Measuring(h: Hash)             // delete: file found, about to read its length
    | Deleting(h: Hash, len: nat)    // delete: length in hand, about to remove the file
    | Removed(len: nat)              // delete: file gone, about to lower the counter
    | Dropping(h: Hash)              // get: file found corrupt, about to remove it

  /** `files` maps each stored hash to whether its content has been corrupted since. */
  datatype Store = Store(max: nat, used: int, files: map<Hash, bool>, threads: seq<Pc>)

  datatype Step =
    | PutStart(t: nat, h: Hash)
    | Reserve(t: nat)
    | Validate(t: nat)
    | Write(t: nat)
    | WriteFails(t: nat)
    | RollBack(t: nat)
    | DeleteStart(t: nat, h: Hash)
    | Measure(t: nat)
    | MeasureFails(t: nat)
    | RemoveFile(t: nat)
    | RemoveFails(t: nat)
    | Subtract(t: nat)
    | GetStart(t: nat, h: Hash)
    | Drop(t: nat)
    | Decay(h: Hash)                 // the environment corrupts a file

  function Go(s: Store, t: nat, pc: Pc): Store
    requires t < |s.threads|
  {
    s.(threads := s.threads[t := pc])
  }

  /** One atomic step; a step whose thread is elsewhere changes nothing. */
  function Next(s: Store, size: Sizes, step: Step): Store {
    if step.Decay? then
      if step.h in s.files then s.(files := s.files[step.h := true]) else s
    else if step.t >= |s.threads| then s
    else
      var t, pc := step.t, s.threads[step.t];
      match step
      case PutStart(_, h) =>
        if pc.Idle? && size(h) <= MAX_CHUNK_SIZE && h !in s.files then Go(s, t, Checked(h)) else s
      case Reserve(_) =>
        if pc.Checked? then Go(s, t, Reserved(pc.h, s.used)).(used := s.used + size(pc.h)) else s
      case Validate(_) =>
        if pc.Reserved? then Go(s, t, if pc.prev + size(pc.h) > s.max then Rejected(pc.h) else Writing(pc.h)) else s
      case Write(_) =>
        if pc.Writing? then Go(s, t, Idle).(files := s.files[pc.h := false]) else s
      case WriteFails(_) =>
        if pc.Writing? then Go(s, t, Failed(pc.h)) else s
      case RollBack(_) =>
        if pc.Rejected? || pc.Failed? then Go(s, t, Idle).(used := s.used - size(pc.h)) else s
      case DeleteStart(_, h) =>
        if pc.Idle? && h in s.files then Go(s, t, Measuring(h)) else s
      case Measure(_) =>
        if pc.Measuring? then Go(s, t, Deleting(pc.h, if pc.h in s.files then size(pc.h) else 0)) else s
      case MeasureFails(_) =>
        if pc.Measuring? then Go(s, t, Deleting(pc.h, 0)) else s
      case RemoveFile(_) =>
        if !pc.Deleting? then s
        else if pc.h in s.files then Go(s, t, Removed(pc.len)).(files := s.files - {pc.h})
        else Go(s, t, Idle)
      case RemoveFails(_) =>
        if pc.Deleting? then Go(s, t, Idle) else s
      case Subtract(_) =>
        if pc.Removed? then Go(s, t, Idle).(used := s.used - pc.len) else s
      case GetStart(_, h) =>
        if pc.Idle? && h in s.files && s.files[h] then Go(s, t, Dropping(h)) else s
      case Drop(_) =>
        if pc.Dropping? then Go(s, t, Idle).(files := s.files - {pc.h}) else s
  }

  // ----- accounting

  /** What `compute_storage_used_sync` adds up. */
  ghost function FileBytes(files: set<Hash>, size: Sizes): nat {
    if files == {} then 0
    else
      var h :| h in files;
      size(h) + FileBytes(files - {h}, size)
  }

  function Total(threads: seq<Pc>, weight: Pc -> nat): nat {
    if threads == [] then 0 else Total(threads[..|threads| - 1], weight) + weight(threads[|threads| - 1])
  }

  /** What a thread has added to the counter and will not leave there as a file, or still has to take off. */
  function HeldBy(pc: Pc, size: Sizes): nat {
    match pc
    case Reserved(h, _) => size(h)
    case Writing(h) => size(h)
    case Rejected(h) => size(h)
    case Failed(h) => size(h)
    case Removed(len) => len
    case _ => 0
  }

  /** The part of it that passed, or will pass, the quota check. */
  function AcceptedBy(pc: Pc, size: Sizes, max: nat): nat {
    if pc.Rejected? || (pc.Reserved? && pc.prev + size(pc.h) > max) then 0 else HeldBy(pc, size)
  }

  function Held(size: Sizes): Pc -> nat {
    (pc: Pc) => HeldBy(pc, size)
  }

  function Accepted(size: Sizes, max: nat): Pc -> nat {
    (pc: Pc) => AcceptedBy(pc, size, max)
  }

  /** Counted bytes that no file and no thread accounts for. */
  ghost function Leak(s: Store, size: Sizes): int {
    s.used - FileBytes(s.files.Keys, size) - Total(s.threads, Held(size))
  }

  /** What a step adds to them: an overwritten file, a dropped file, or a removal whose length was not read. */
  function StepLeak(s: Store, size: Sizes, step: Step): int {
    if step.Decay? || step.t >= |s.threads| then 0
    else
      var pc := s.threads[step.t];
      if step.Write? && pc.Writing? && pc.h in s.files then size(pc.h)
      else if step.Drop? && pc.Dropping? && pc.h in s.files then size(pc.h)
      else if step.RemoveFile? && pc.Deleting? && pc.h in s.files then size(pc.h) - pc.len
      else 0
  }

  lemma {:induction false} FileBytesPick(files: set<Hash>, size: Sizes, h: Hash)
    requires h in files
    ensures FileBytes(files, size) == size(h) + FileBytes(files - {h}, size)
  {
    var p :| p in files && FileBytes(files, size) == size(p) + FileBytes(files - {p}, size);
    if p != h {
      FileBytesPick(files - {p}, size, h);
      FileBytesPick(files - {h}, size, p);
      assert files - {p} - {h} == files - {h} - {p};
    }
  }

  lemma FileBytesAdd(files: set<Hash>, size: Sizes, h: Hash)
    requires h !in files
    ensures FileBytes(files + {h}, size) == FileBytes(files, size) + size(h)
  {
    FileBytesPick(files + {h}, size, h);
    assert files + {h} - {h} == files;
  }

  lemma {:induction false} TotalUpdate(threads: seq<Pc>, weight: Pc -> nat, t: nat, pc: Pc)
    requires t < |threads|
    ensures Total(threads[t := pc], weight) == Total(threads, weight) - weight(threads[t]) + weight(pc)
  {
    var n := |threads| - 1;
    if t < n {
      TotalUpdate(threads[..n], weight, t, pc);
      assert threads[t := pc][..n] == threads[..n][t := pc];
    } else {
      assert threads[t := pc][..n] == threads[..n];
    }
  }

  lemma {:induction false} TotalOrder(threads: seq<Pc>, less: Pc -> nat, more: Pc -> nat)
    requires forall pc :: less(pc) <= more(pc)
    ensures Total(threads, less) <= Total(threads, more)
  {
    if threads != [] { TotalOrder(threads[..|threads| - 1], less, more); }
  }

  lemma {:induction false} TotalCovers(threads: seq<Pc>, weight: Pc -> nat, t: nat)
    requires t < |threads|
    ensures weight(threads[t]) <= Total(threads, weight)
  {
    if t < |threads| - 1 { TotalCovers(threads[..|threads| - 1], weight, t); }
  }

  lemma {:induction false} TotalIdle(threads: seq<Pc>, weight: Pc -> nat)
    requires weight(Idle) == 0 && forall t :: 0 <= t < |threads| ==> threads[t] == Idle
    ensures Total(threads, weight) == 0
  {
    if threads != [] { TotalIdle(threads[..|threads| - 1], weight); }
  }

  // ----- what every step keeps

  /** Lengths read for a deletion never exceed the file's. */
  ghost predicate LengthsOk(s: Store, size: Sizes) {
    forall t :: 0 <= t < |s.threads| && s.threads[t].Deleting? ==> s.threads[t].len <= size(s.threads[t].h)
  }

  /**
   Files, accepted reservations, unfinished deletions and leaked bytes together stay within the quota, and
   leaked bytes are never negative.
   */
  ghost predicate Sound(s: Store, size: Sizes) {
    && LengthsOk(s, size)
    && Leak(s, size) >= 0
    && FileBytes(s.files.Keys, size) + Total(s.threads, Accepted(size, s.max)) + Leak(s, size) <= s.max
  }

  lemma StepMovesFiles(s: Store, size: Sizes, step: Step)
    ensures var s' := Next(s, size, step);
            if step.Decay? || step.t >= |s.threads| then s'.files.Keys == s.files.Keys
            else
              var pc := s.threads[step.t];
              if step.Write? && pc.Writing? then s'.files.Keys == s.files.Keys + {pc.h}
              else if (step.RemoveFile? && pc.Deleting?) || (step.Drop? && pc.Dropping?)
              then s'.files.Keys == s.files.Keys - {pc.h}
              else s'.files.Keys == s.files.Keys
  {
    if step.Decay? && step.h in s.files {
      assert s.files[step.h := true].Keys == s.files.Keys;
    }
  }

  /** The bytes a step adds to the directory. */
  function Grown(s: Store, size: Sizes, step: Step): int {
    if step.Decay? || step.t >= |s.threads| then 0
    else
      var pc := s.threads[step.t];
      if step.Write? && pc.Writing? then (if pc.h in s.files then 0 else size(pc.h))
      else if (step.RemoveFile? && pc.Deleting?) || (step.Drop? && pc.Dropping?)
      then (if pc.h in s.files then 0 - size(pc.h) else 0)
      else 0
  }

  lemma StepFileBytes(s: Store, size: Sizes, step: Step)
    ensures FileBytes(Next(s, size, step).files.Keys, size)
            == FileBytes(s.files.Keys, size) + Grown(s, size, step)
  {
    StepMovesFiles(s, size, step);
    if !step.Decay? && step.t < |s.threads| {
      var pc := s.threads[step.t];
      if step.Write? && pc.Writing? {
        if pc.h in s.files { assert s.files.Keys + {pc.h} == s.files.Keys; }
        else { FileBytesAdd(s.files.Keys, size, pc.h); }
      } else if (step.RemoveFile? && pc.Deleting?) || (step.Drop? && pc.Dropping?) {
        if pc.h in s.files { FileBytesPick(s.files.Keys, size, pc.h); }
        else { assert s.files.Keys - {pc.h} == s.files.Keys; }
      }
    }
  }

  lemma StepTotal(s: Store, size: Sizes, step: Step, weight: Pc -> nat)
    ensures var s' := Next(s, size, step);
            if step.Decay? || step.t >= |s.threads| then Total(s'.threads, weight) == Total(s.threads, weight)
            else
              && |s'.threads| == |s.threads|
              && Total(s'.threads, weight)
                 == Total(s.threads, weight) - weight(s.threads[step.t]) + weight(s'.threads[step.t])
  {
    if !step.Decay? && step.t < |s.threads| {
      var s' := Next(s, size, step);
      TotalUpdate(s.threads, weight, step.t, s'.threads[step.t]);
      assert s'.threads == s.threads[step.t := s'.threads[step.t]];
    }
  }

  lemma StepAccounts(s: Store, size: Sizes, step: Step)
    requires !step.Decay? && step.t < |s.threads|
    ensures var s' := Next(s, size, step);
            s'.used - Grown(s, size, step) - HeldBy(s'.threads[step.t], size)
            == s.used - HeldBy(s.threads[step.t], size) + StepLeak(s, size, step)
  {
  }

  /** A step changes the leak by exactly its own amount. */
  lemma StepChangesLeak(s: Store, size: Sizes, step: Step)
    ensures Leak(Next(s, size, step), size) == Leak(s, size) + StepLeak(s, size, step)
  {
    StepFileBytes(s, size, step);
    StepTotal(s, size, step, Held(size));
    if !step.Decay? && step.t < |s.threads| { StepAccounts(s, size, step); }
  }

  lemma StepKeepsLengths(s: Store, size: Sizes, step: Step)
    requires LengthsOk(s, size)
    ensures LengthsOk(Next(s, size, step), size) && Next(s, size, step).max == s.max
    ensures StepLeak(s, size, step) >= 0
  {
  }

  /** What a rejected put still has to take off. */
  function OverBy(pc: Pc, size: Sizes, max: nat): int {
    HeldBy(pc, size) - AcceptedBy(pc, size, max)
  }

  /** Apart from such puts, a step raises the counter only by a reservation that fits the quota. */
  lemma StepRespectsQuota(s: Store, size: Sizes, step: Step)
    requires !step.Decay? && step.t < |s.threads|
    ensures var s' := Next(s, size, step);
            var before, after := OverBy(s.threads[step.t], size, s.max), OverBy(s'.threads[step.t], size, s.max);
            || s'.used - after <= s.used - before
            || (before == after && s'.used <= s.max)
  {
  }

  lemma StepKeepsSound(s: Store, size: Sizes, step: Step)
    requires Sound(s, size)
    ensures Sound(Next(s, size, step), size) && Next(s, size, step).max == s.max
    ensures StepLeak(s, size, step) >= 0
  {
    StepKeepsLengths(s, size, step);
    StepChangesLeak(s, size, step);
    StepFileBytes(s, size, step);
    StepTotal(s, size, step, Accepted(size, s.max));
    StepTotal(s, size, step, Held(size));
    TotalOrder(s.threads, Accepted(size, s.max), Held(size));
    if !step.Decay? && step.t < |s.threads| { StepRespectsQuota(s, size, step); }
  }

  // ----- runs

  function Run(s: Store, size: Sizes, steps: seq<Step>): Store {
    if steps == [] then s else Next(Run(s, size, steps[..|steps| - 1]), size, steps[|steps| - 1])
  }

  function RunLeak(s: Store, size: Sizes, steps: seq<Step>): int {
    if steps == [] then 0
    else
      RunLeak(s, size, steps[..|steps| - 1])
      + StepLeak(Run(s, size, steps[..|steps| - 1]), size, steps[|steps| - 1])
  }

  /** A store as opened: counter recomputed from the directory, within quota, nothing in flight. */
  ghost predicate Opened(s: Store, size: Sizes) {
    && s.used == FileBytes(s.files.Keys, size) && s.used <= s.max
    && forall t :: 0 <= t < |s.threads| ==> s.threads[t] == Idle
  }

  lemma {:induction false} RunsKeepSound(s: Store, size: Sizes, steps: seq<Step>)
    requires Opened(s, size)
    ensures Sound(Run(s, size, steps), size) && Run(s, size, steps).max == s.max
    ensures Leak(Run(s, size, steps), size) == RunLeak(s, size, steps) >= 0
  {
    if steps == [] {
      TotalIdle(s.threads, Held(size));
      TotalIdle(s.threads, Accepted(size, s.max));
    } else {
      RunsKeepSound(s, size, steps[..|steps| - 1]);
      StepKeepsSound(Run(s, size, steps[..|steps| - 1]), size, steps[|steps| - 1]);
      StepChangesLeak(Run(s, size, steps[..|steps| - 1]), size, steps[|steps| - 1]);
    }
  }

  /**
   In every interleaving: stored bytes plus accepted reservations never exceed the quota; the counter is never
   below what any thread is about to take off, so it never underflows; and it exceeds the quota by no more than
   the rejected reservations still in flight.
   */
  lemma QuotaHolds(s: Store, size: Sizes, steps: seq<Step>)
    requires Opened(s, size)
    ensures var r := Run(s, size, steps);
            && FileBytes(r.files.Keys, size) + Total(r.threads, Accepted(size, r.max)) <= s.max
            && (forall t :: 0 <= t < |r.threads| ==> Held(size)(r.threads[t]) <= r.used)
            && 0 <= r.used <= s.max + (Total(r.threads, Held(size)) - Total(r.threads, Accepted(size, r.max)))
  {
    RunsKeepSound(s, size, steps);
    var r := Run(s, size, steps);
    TotalOrder(r.threads, Accepted(size, r.max), Held(size));
    forall t | 0 <= t < |r.threads| ensures Held(size)(r.threads[t]) <= r.used {
      TotalCovers(r.threads, Held(size), t);
    }
  }

  /** The bytes a quiescent counter is over the true total are exactly those leaked by the run. */
  lemma QuiescentCounter(s: Store, size: Sizes, steps: seq<Step>)
    requires Opened(s, size)
    requires forall t :: 0 <= t < |Run(s, size, steps).threads| ==> Run(s, size, steps).threads[t] == Idle
    ensures var r := Run(s, size, steps);
            r.used == FileBytes(r.files.Keys, size) + RunLeak(s, size, steps) && RunLeak(s, size, steps) >= 0
  {
    RunsKeepSound(s, size, steps);
    TotalIdle(Run(s, size, steps).threads, Held(size));
  }

  /** A step of the run that leaks. */
  ghost predicate Leaks(s: Store, size: Sizes, steps: seq<Step>, n: nat)
    requires n < |steps|
  {
    StepLeak(Run(s, size, steps[..n]), size, steps[n]) != 0
  }

  lemma LeaksSplit(s: Store, size: Sizes, steps: seq<Step>)
    requires steps != []
    ensures var last := |steps| - 1;
            (forall n :: 0 <= n < |steps| ==> !Leaks(s, size, steps, n)) <==>
              (forall n :: 0 <= n < last ==> !Leaks(s, size, steps[..last], n))
              && StepLeak(Run(s, size, steps[..last]), size, steps[last]) == 0
  {
    var last := |steps| - 1;
    var front := steps[..last];
    forall n | 0 <= n < last ensures Leaks(s, size, steps, n) == Leaks(s, size, front, n) {
      assert steps[..n] == front[..n];
    }
    assert Leaks(s, size, steps, last) <==> StepLeak(Run(s, size, front), size, steps[last]) != 0;
  }

  lemma {:induction false} RunLeakZeroIff(s: Store, size: Sizes, steps: seq<Step>)
    requires Opened(s, size)
    ensures RunLeak(s, size, steps) == 0 <==> forall n :: 0 <= n < |steps| ==> !Leaks(s, size, steps, n)
  {
    if steps != [] {
      var last := |steps| - 1;
      var front := steps[..last];
      RunLeakZeroIff(s, size, front);
      RunsKeepSound(s, size, front);
      StepKeepsSound(Run(s, size, front), size, steps[last]);
      LeaksSplit(s, size, steps);
    }
  }

  /**
   When nothing is in flight, the counter equals the recomputed total if and only if no step of the run
   overwrote an existing file, dropped a corrupt one, or removed one whose length it had failed to read.
   */
  lemma CounterExactIff(s: Store, size: Sizes, steps: seq<Step>)
    requires Opened(s, size)
    requires forall t :: 0 <= t < |Run(s, size, steps).threads| ==> Run(s, size, steps).threads[t] == Idle
    ensures Run(s, size, steps).used == FileBytes(Run(s, size, steps).files.Keys, size)
            <==> forall n :: 0 <= n < |steps| ==> !Leaks(s, size, steps, n)
  {
    QuiescentCounter(s, size, steps);
    RunLeakZeroIff(s, size, steps);
  }

  // ----- operations that run by themselves

  /** A put of a stored chunk, or of one over the size limit, changes nothing. */
  lemma PutIsRefused(s: Store, size: Sizes, t: nat, h: Hash)
    requires h in s.files || size(h) > MAX_CHUNK_SIZE
    ensures Next(s, size, PutStart(t, h)) == s
  {
  }

  /** An undisturbed put of a new chunk stores and counts it if it fits the quota, and else leaves everything. */
  lemma PutAlone(s: Store, size: Sizes, t: nat, h: Hash)
    requires t < |s.threads| && s.threads[t] == Idle && h !in s.files && size(h) <= MAX_CHUNK_SIZE
    ensures var validated := Next(Next(Next(s, size, PutStart(t, h)), size, Reserve(t)), size, Validate(t));
            if s.used + size(h) <= s.max then
              && Next(validated, size, Write(t)) == s.(used := s.used + size(h), files := s.files[h := false])
              && Next(Next(validated, size, WriteFails(t)), size, RollBack(t)) == s
            else
              Next(validated, size, RollBack(t)) == s && Next(validated, size, Write(t)) == validated
  {
    var s1 := Next(s, size, PutStart(t, h));
    var s2 := Next(s1, size, Reserve(t));
    var s3 := Next(s2, size, Validate(t));
    assert s1.threads == s.threads[t := Checked(h)];
    assert s2.threads == s.threads[t := Reserved(h, s.used)];
    assert s3.threads == s.threads[t := if s.used + size(h) > s.max then Rejected(h) else Writing(h)];
    assert s3.threads[t := Idle] == s.threads;
    assert s3.threads[t := Failed(h)][t := Idle] == s.threads;
  }

  /** An undisturbed deletion removes the file and takes its length off the counter. */
  lemma DeleteAlone(s: Store, size: Sizes, t: nat, h: Hash)
    requires t < |s.threads| && s.threads[t] == Idle && h in s.files
    ensures var measured := Next(Next(s, size, DeleteStart(t, h)), size, Measure(t));
            && Next(Next(measured, size, RemoveFile(t)), size, Subtract(t))
                 == s.(used := s.used - size(h), files := s.files - {h})
            && Next(measured, size, RemoveFails(t)) == s
  {
    var s2 := Next(Next(s, size, DeleteStart(t, h)), size, Measure(t));
    var s3 := Next(s2, size, RemoveFile(t));
    assert s2.threads == s.threads[t := Deleting(h, size(h))];
    assert s3.threads == s.threads[t := Removed(size(h))];
    assert s.threads[t := Removed(size(h))][t := Idle] == s.threads;
    assert s.threads[t := Deleting(h, size(h))][t := Idle] == s.threads;
  }

  /** A read leaves an intact file alone and removes a corrupt one, without taking it off the counter. */
  lemma GetAlone(s: Store, size: Sizes, t: nat, h: Hash)
    requires t < |s.threads| && s.threads[t] == Idle
    ensures h !in s.files || !s.files[h] ==> Next(s, size, GetStart(t, h)) == s
    ensures h in s.files && s.files[h] ==>
              Next(Next(s, size, GetStart(t, h)), size, Drop(t)) == s.(files := s.files - {h})
  {
    assert s.threads[t := Dropping(h)][t := Idle] == s.threads;
  }

  // ----- puts of one chunk that do not overlap

  /** The thread is putting the chunk. */
  ghost predicate Puts(pc: Pc, h: Hash) {
    (pc.Checked? || pc.Reserved? || pc.Writing? || pc.Rejected? || pc.Failed?) && pc.h == h
  }

  ghost predicate NobodyPuts(s: Store, h: Hash) {
    forall t :: 0 <= t < |s.threads| ==> !Puts(s.threads[t], h)
  }

  /** No put of a chunk starts while another put of it is in flight. */
  ghost predicate NoOverlap(s: Store, size: Sizes, steps: seq<Step>) {
    forall n :: 0 <= n < |steps| && steps[n].PutStart? ==> NobodyPuts(Run(s, size, steps[..n]), steps[n].h)
  }

  /** At most one thread is putting a chunk, and while it does there is no file. */
  ghost predicate Exclusive(s: Store) {
    && (forall t, u, h :: 0 <= t < u < |s.threads| && Puts(s.threads[t], h) ==> !Puts(s.threads[u], h))
    && (forall t, h :: 0 <= t < |s.threads| && Puts(s.threads[t], h) ==> h !in s.files)
  }

  /** What a step does to puts and files: only a start makes a put, and only a write makes a file. */
  lemma StepMovesPuts(s: Store, size: Sizes, step: Step, u: nat, h: Hash)
    requires u < |s.threads|
    ensures var s' := Next(s, size, step);
            && |s'.threads| == |s.threads|
            && (step.Decay? || step.t != u ==> s'.threads[u] == s.threads[u])
            && (Puts(s'.threads[u], h) && !Puts(s.threads[u], h) ==>
                  step == PutStart(u, h) && h !in s.files)
            && (h in s'.files && h !in s.files ==>
                  step.Write? && step.t < |s.threads| && Puts(s.threads[step.t], h) && s'.threads[step.t] == Idle)
  {
  }

  lemma StepKeepsExclusive(s: Store, size: Sizes, step: Step)
    requires Exclusive(s) && (step.PutStart? ==> NobodyPuts(s, step.h))
    ensures Exclusive(Next(s, size, step))
  {
    var s' := Next(s, size, step);
    forall t, u, h | 0 <= t < u < |s'.threads| && Puts(s'.threads[t], h) ensures !Puts(s'.threads[u], h) {
      StepMovesPuts(s, size, step, t, h);
      StepMovesPuts(s, size, step, u, h);
    }
    forall t, h | 0 <= t < |s'.threads| && Puts(s'.threads[t], h) ensures h !in s'.files {
      StepMovesPuts(s, size, step, t, h);
    }
  }

  lemma {:induction false} RunsKeepExclusive(s: Store, size: Sizes, steps: seq<Step>, n: nat)
    requires Opened(s, size) && NoOverlap(s, size, steps) && n <= |steps|
    ensures Exclusive(Run(s, size, steps[..n]))
  {
    if n > 0 {
      RunsKeepExclusive(s, size, steps, n - 1);
      assert steps[..n][..n - 1] == steps[..n - 1];
      StepKeepsExclusive(Run(s, size, steps[..n - 1]), size, steps[n - 1]);
    }
  }

  /** In a run without overlapping puts of one chunk, no write meets a file. */
  lemma WritesAreNew(s: Store, size: Sizes, steps: seq<Step>, n: nat)
    requires Opened(s, size) && NoOverlap(s, size, steps) && n < |steps|
    ensures var r, step := Run(s, size, steps[..n]), steps[n];
            step.Write? && step.t < |r.threads| && r.threads[step.t].Writing? ==> r.threads[step.t].h !in r.files
  {
    RunsKeepExclusive(s, size, steps, n);
    var r, step := Run(s, size, steps[..n]), steps[n];
    if step.Write? && step.t < |r.threads| && r.threads[step.t].Writing? {
      assert Puts(r.threads[step.t], r.threads[step.t].h);
    }
  }

  /** The step drops no file as corrupt, and takes away no file whose length the deletion has failed to read. */
  ghost predicate CountsWell(s: Store, size: Sizes, step: Step) {
    !step.Decay? && step.t < |s.threads| ==>
      var pc := s.threads[step.t];
      && (step.Drop? && pc.Dropping? ==> pc.h !in s.files)
      && (step.RemoveFile? && pc.Deleting? && pc.h in s.files ==> pc.len == size(pc.h))
  }

  /**
   With no overlapping puts of one chunk, no corrupt file dropped and every removed file's length read, the counter
   equals the recomputed total whenever nothing is in flight.
   */
  lemma CounterExactWithoutOverlap(s: Store, size: Sizes, steps: seq<Step>)
    requires Opened(s, size) && NoOverlap(s, size, steps)
    requires forall n :: 0 <= n < |steps| ==> CountsWell(Run(s, size, steps[..n]), size, steps[n])
    requires forall t :: 0 <= t < |Run(s, size, steps).threads| ==> Run(s, size, steps).threads[t] == Idle
    ensures Run(s, size, steps).used == FileBytes(Run(s, size, steps).files.Keys, size)
  {
    forall n | 0 <= n < |steps| ensures !Leaks(s, size, steps, n) {
      WritesAreNew(s, size, steps, n);
    }
    CounterExactIff(s, size, steps);
  }

  // ----- a stored chunk stays

  /** The file is intact if it exists, and nobody is about to drop it. */
  ghost predicate Intact(s: Store, h: Hash) {
    && (h in s.files ==> !s.files[h])
    && (forall t :: 0 <= t < |s.threads| ==> s.threads[t] != Dropping(h))
  }

  /** The step removes the file of this chunk in a deletion. */
  ghost predicate Deletes(s: Store, step: Step, h: Hash) {
    step.RemoveFile? && step.t < |s.threads| && s.threads[step.t].Deleting? && s.threads[step.t].h == h
  }

  lemma StepKeepsIntact(s: Store, size: Sizes, step: Step, h: Hash)
    requires Intact(s, h) && step != Decay(h)
    ensures Intact(Next(s, size, step), h)
    ensures h in s.files && !Deletes(s, step, h) ==> h in Next(s, size, step).files
  {
  }

  /**
   As long as a chunk does not decay, its file stays intact, whatever is put, read and deleted; and once stored it
   stays until a deletion of that chunk removes it.
   */
  lemma {:induction false} StoredStays(s: Store, size: Sizes, steps: seq<Step>, h: Hash, m: nat)
    requires Intact(s, h) && m <= |steps| && forall n :: 0 <= n < |steps| ==> steps[n] != Decay(h)
    requires forall n :: m <= n < |steps| ==> !Deletes(Run(s, size, steps[..n]), steps[n], h)
    ensures Intact(Run(s, size, steps), h)
    ensures h in Run(s, size, steps[..m]).files ==> h in Run(s, size, steps).files
  {
    if m == |steps| {
      assert steps[..m] == steps;
    }
    if steps != [] {
      var last := |steps| - 1;
      var front := steps[..last];
      assert forall n :: 0 <= n < last ==> front[..n] == steps[..n];
      if m <= last {
        assert front[..m] == steps[..m];
        StoredStays(s, size, front, h, m);
      } else {
        StoredStays(s, size, front, h, last);
      }
      StepKeepsIntact(Run(s, size, front), size, steps[last], h);
    }
  }

  /** Two overlapping puts of one new chunk count it twice. */
  lemma OverlappingPutsCountTwice(max: nat, size: Sizes, h: Hash)
    requires size(h) <= MAX_CHUNK_SIZE && 2 * size(h) <= max
    ensures var s := Store(max, 0, map[], [Idle, Idle]);
            var steps := [PutStart(0, h), PutStart(1, h), Reserve(0), Reserve(1), Validate(0), Validate(1),
                          Write(0), Write(1)];
            && Opened(s, size)
            && Run(s, size, steps).used == 2 * size(h)
            && Run(s, size, steps).files == map[h := false]
            && Run(s, size, steps).threads == [Idle, Idle]
  {
    var s0 := Store(max, 0, map[], [Idle, Idle]);
    var steps := [PutStart(0, h), PutStart(1, h), Reserve(0), Reserve(1), Validate(0), Validate(1),
                  Write(0), Write(1)];
    var n := size(h);
    BothReserve(max, size, h, s0, steps);
    BothWrite(max, size, h, s0, steps);
    assert steps[..8] == steps;
  }

  lemma BothReserve(max: nat, size: Sizes, h: Hash, s0: Store, steps: seq<Step>)
    requires size(h) <= MAX_CHUNK_SIZE && s0 == Store(max, 0, map[], [Idle, Idle])
    requires |steps| == 8 && steps[..4] == [PutStart(0, h), PutStart(1, h), Reserve(0), Reserve(1)]
    ensures Run(s0, size, steps[..4]) == Store(max, 2 * size(h), map[], [Reserved(h, 0), Reserved(h, size(h))])
  {
    var n := size(h);
    assert steps[0] == steps[..4][0] && steps[1] == steps[..4][1];
    assert steps[2] == steps[..4][2] && steps[3] == steps[..4][3];
    var s1 := Store(max, 0, map[], [Checked(h), Idle]);
    var s2 := Store(max, 0, map[], [Checked(h), Checked(h)]);
    var s3 := Store(max, n, map[], [Reserved(h, 0), Checked(h)]);
    assert steps[..0] == [];
    RunStep(s0, size, steps, 0, s0, s1);
    RunStep(s0, size, steps, 1, s1, s2);
    RunStep(s0, size, steps, 2, s2, s3);
    RunStep(s0, size, steps, 3, s3, Store(max, 2 * n, map[], [Reserved(h, 0), Reserved(h, n)]));
  }

  lemma BothWrite(max: nat, size: Sizes, h: Hash, s0: Store, steps: seq<Step>)
    requires 2 * size(h) <= max
    requires |steps| == 8 && steps[4..] == [Validate(0), Validate(1), Write(0), Write(1)]
    requires Run(s0, size, steps[..4]) == Store(max, 2 * size(h), map[], [Reserved(h, 0), Reserved(h, size(h))])
    ensures Run(s0, size, steps[..8]) == Store(max, 2 * size(h), map[h := false], [Idle, Idle])
  {
    var n := size(h);
    assert steps[4] == steps[4..][0] && steps[5] == steps[4..][1];
    assert steps[6] == steps[4..][2] && steps[7] == steps[4..][3];
    var s4 := Store(max, 2 * n, map[], [Reserved(h, 0), Reserved(h, n)]);
    var s5 := Store(max, 2 * n, map[], [Writing(h), Reserved(h, n)]);
    var s6 := Store(max, 2 * n, map[], [Writing(h), Writing(h)]);
    var s7 := Store(max, 2 * n, map[h := false], [Idle, Writing(h)]);
    RunStep(s0, size, steps, 4, s4, s5);
    RunStep(s0, size, steps, 5, s5, s6);
    RunStep(s0, size, steps, 6, s6, s7);
    assert s7.files[h := false] == map[h := false];
    RunStep(s0, size, steps, 7, s7, Store(max, 2 * n, map[h := false], [Idle, Idle]));
  }

  lemma RunStep(s0: Store, size: Sizes, steps: seq<Step>, n: nat, before: Store, after: Store)
    requires n < |steps| && Run(s0, size, steps[..n]) == before
    requires Next(before, size, steps[n]) == after
    ensures Run(s0, size, steps[..n + 1]) == after
  {
    assert steps[..n + 1][..n] == steps[..n];
  }
}
