/**
 The per-peer chunk counter of the PutChunk handler (`src/node.rs`): reserve under a lock, put without it, roll
 back on failure, while a periodic task prunes the counters of peers that left the routing table.
 */
module PeerQuotas {
  import opened NodeIds

  type Peer = NodeId

  /** A handler is idle, or is putting a chunk for a peer whose counter it has raised. */
  datatype Pc = Idle | Putting(peer: Peer)

  datatype State = State(max: nat, counts: map<Peer, nat>, handlers: seq<Pc>)

  datatype Step =
    | Request(t: nat, peer: Peer)     // check the counter and raise it, or reject
    | PutDone(t: nat)
    | PutFailed(t: nat)               // roll the counter back
    | Prune(known: set<Peer>)

  function CountOf(s: State, peer: Peer): nat {
    if peer in s.counts then s.counts[peer] else 0
  }

  function Next(s: State, step: Step): State {
    match step
    case Request(t, peer) =>
      if t < |s.handlers| && s.handlers[t].Idle? then
        // `entry(peer).or_insert(0)` leaves an entry behind even when the request is rejected
        var count := CountOf(s, peer);
        if count >= s.max then s.(counts := s.counts[peer := count])
        else s.(counts := s.counts[peer := count + 1], handlers := s.handlers[t := Putting(peer)])
      else s
    case PutDone(t) =>
      if t < |s.handlers| && s.handlers[t].Putting? then s.(handlers := s.handlers[t := Idle]) else s
    case PutFailed(t) =>
      if t < |s.handlers| && s.handlers[t].Putting? then
        var peer := s.handlers[t].peer;
        // `entry(peer).or_insert(1)`, then `saturating_sub(1)`
        var count := if peer in s.counts then s.counts[peer] else 1;
        s.(counts := s.counts[peer := if count == 0 then 0 else count - 1], handlers := s.handlers[t := Idle])
      else s
    case Prune(known) =>
      s.(counts := map p | p in s.counts && p in known :: s.counts[p])
  }

  function InFlight(handlers: seq<Pc>, peer: Peer): nat {
    if handlers == [] then 0
    else
      InFlight(handlers[..|handlers| - 1], peer) + if handlers[|handlers| - 1] == Putting(peer) then 1 else 0
  }

  function Run(s: State, steps: seq<Step>): State {
    if steps == [] then s else Next(Run(s, steps[..|steps| - 1]), steps[|steps| - 1])
  }

  predicate Forgets(step: Step, peer: Peer) {
    step.Prune? && peer !in step.known
  }

  /** The successful puts of a peer since the last prune that forgot it: read off the run, not the counter. */
  function Successes(s: State, steps: seq<Step>, peer: Peer): nat {
    if steps == [] then 0
    else
      var front, last := steps[..|steps| - 1], steps[|steps| - 1];
      var before := Run(s, front);
      if Forgets(last, peer) then 0
      else
        Successes(s, front, peer)
        + if last.PutDone? && last.t < |before.handlers| && before.handlers[last.t] == Putting(peer) then 1 else 0
  }

  lemma {:induction false} InFlightUpdate(handlers: seq<Pc>, peer: Peer, t: nat, pc: Pc)
    requires t < |handlers|
    ensures InFlight(handlers[t := pc], peer)
         == InFlight(handlers, peer) - (if handlers[t] == Putting(peer) then 1 else 0)
                                     + (if pc == Putting(peer) then 1 else 0)
  {
    var n := |handlers| - 1;
    if t < n {
      InFlightUpdate(handlers[..n], peer, t, pc);
      assert handlers[t := pc][..n] == handlers[..n][t := pc];
    } else {
      assert handlers[t := pc][..n] == handlers[..n];
    }
  }

  lemma {:induction false} InFlightCovers(handlers: seq<Pc>, peer: Peer, t: nat)
    requires t < |handlers| && handlers[t] == Putting(peer)
    ensures InFlight(handlers, peer) >= 1
  {
    if t < |handlers| - 1 { InFlightCovers(handlers[..|handlers| - 1], peer, t); }
  }

  lemma {:induction false} NoneInFlight(handlers: seq<Pc>, peer: Peer)
    requires forall t :: 0 <= t < |handlers| ==> handlers[t] == Idle
    ensures InFlight(handlers, peer) == 0
  {
    if handlers != [] { NoneInFlight(handlers[..|handlers| - 1], peer); }
  }

  /** A node starts without counters and without requests in progress. */
  ghost predicate Fresh(s: State) {
    s.counts == map[] && forall t :: 0 <= t < |s.handlers| ==> s.handlers[t] == Idle
  }

  /** In every interleaving of requests, outcomes and prunes, no counter ever exceeds the quota. */
  lemma {:induction false} CountNeverExceedsQuota(s: State, steps: seq<Step>, peer: Peer)
    requires Fresh(s)
    ensures CountOf(Run(s, steps), peer) <= s.max && Run(s, steps).max == s.max
  {
    if steps != [] {
      CountNeverExceedsQuota(s, steps[..|steps| - 1], peer);
    }
  }

  /** No put of this peer is in progress when a prune forgets it. */
  ghost predicate PrunedIdle(s: State, steps: seq<Step>, peer: Peer) {
    steps == [] || (
      && PrunedIdle(s, steps[..|steps| - 1], peer)
      && (Forgets(steps[|steps| - 1], peer) ==> InFlight(Run(s, steps[..|steps| - 1]).handlers, peer) == 0))
  }

  lemma StepKeepsBalance(s: State, step: Step, peer: Peer, successes: nat)
    requires CountOf(s, peer) == successes + InFlight(s.handlers, peer)
    requires !Forgets(step, peer)
    ensures CountOf(Next(s, step), peer)
         == successes + InFlight(Next(s, step).handlers, peer)
            + if step.PutDone? && step.t < |s.handlers| && s.handlers[step.t] == Putting(peer) then 1 else 0
  {
    if !step.Prune? && step.t < |s.handlers| {
      InFlightUpdate(s.handlers, peer, step.t, Next(s, step).handlers[step.t]);
      assert s.handlers[step.t := s.handlers[step.t]] == s.handlers;
      if s.handlers[step.t] == Putting(peer) { InFlightCovers(s.handlers, peer, step.t); }
    }
  }

  /**
   Between prunes that forget the peer, its counter is its successful puts plus those in flight; this includes
   prunes that forget it while none of its puts is in progress.
   */
  lemma {:induction false} CountIsSuccessesPlusInFlight(s: State, steps: seq<Step>, peer: Peer)
    requires Fresh(s) && PrunedIdle(s, steps, peer)
    ensures CountOf(Run(s, steps), peer) == Successes(s, steps, peer) + InFlight(Run(s, steps).handlers, peer)
  {
    if steps == [] {
      NoneInFlight(s.handlers, peer);
    } else {
      var front, last := steps[..|steps| - 1], steps[|steps| - 1];
      CountIsSuccessesPlusInFlight(s, front, peer);
      if !Forgets(last, peer) {
        StepKeepsBalance(Run(s, front), last, peer, Successes(s, front, peer));
      }
    }
  }

  /** A prune that forgets the peer keeps the account balanced exactly when no put of the peer is in flight. */
  lemma PruneKeepsBalanceIff(s: State, steps: seq<Step>, peer: Peer, known: set<Peer>)
    requires Fresh(s) && PrunedIdle(s, steps, peer) && peer !in known
    ensures var all := steps + [Prune(known)];
            CountOf(Run(s, all), peer) == Successes(s, all, peer) + InFlight(Run(s, all).handlers, peer)
            <==> InFlight(Run(s, steps).handlers, peer) == 0
  {
    assert (steps + [Prune(known)])[..|steps|] == steps;
  }

  function Undercounted(peer: Peer): seq<Step> {
    [Request(0, peer), Prune({}), Request(1, peer), PutFailed(0), PutDone(1)]
  }

  /**
   One put in flight, forgotten by a prune, another one, and the first one's rollback wipes out the second one's
   reservation, which then succeeds uncounted.
   */
  lemma PruneInFlightUndercounts(peer: Peer, max: nat)
    requires max >= 1
    ensures var s := State(max, map[], [Idle, Idle]);
            && Fresh(s)
            && Successes(s, Undercounted(peer), peer) == 1
            && Run(s, Undercounted(peer)) == State(max, map[peer := 0], [Idle, Idle])
  {
    var s0 := State(max, map[], [Idle, Idle]);
    var steps := Undercounted(peer);
    var s1 := State(max, map[peer := 1], [Putting(peer), Idle]);
    var s2 := State(max, map[], [Putting(peer), Idle]);
    var s3 := State(max, map[peer := 1], [Putting(peer), Putting(peer)]);
    var s4 := State(max, map[peer := 0], [Idle, Putting(peer)]);
    var s5 := State(max, map[peer := 0], [Idle, Idle]);
    assert steps[..0] == [];
    RunStep(s0, steps, 0, s0, s1);
    RunStep(s0, steps, 1, s1, s2);
    RunStep(s0, steps, 2, s2, s3);
    RunStep(s0, steps, 3, s3, s4);
    RunStep(s0, steps, 4, s4, s5);
    assert steps[..5] == steps;
    OnlyTheLastSucceeds(s0, steps, peer);
  }

  /** A run followed by `n` successful puts. */
  function ThenPuts(front: seq<Step>, peer: Peer, n: nat): seq<Step> {
    if n == 0 then front else ThenPuts(front, peer, n - 1) + [Request(0, peer)] + [PutDone(0)]
  }

  /** `steps` leads from `s` to `count` chunks counted and `successes` of them put. */
  ghost predicate LeadsTo(s: State, steps: seq<Step>, peer: Peer, count: nat, successes: nat) {
    && Run(s, steps) == State(s.max, map[peer := count], [Idle, Idle])
    && Successes(s, steps, peer) == successes
  }

  lemma {:induction false} PutsCount(s: State, front: seq<Step>, peer: Peer, n: nat, successes: nat)
    requires n <= s.max && LeadsTo(s, front, peer, 0, successes)
    ensures LeadsTo(s, ThenPuts(front, peer, n), peer, n, successes + n)
  {
    if n > 0 {
      PutsCount(s, front, peer, n - 1, successes);
      var before := ThenPuts(front, peer, n - 1);
      OnePut(s, before, peer, n - 1, successes + n - 1);
      assert ThenPuts(front, peer, n) == before + [Request(0, peer)] + [PutDone(0)];
    }
  }

  lemma OneMore(s: State, front: seq<Step>, x: Step, peer: Peer)
    requires !Forgets(x, peer)
    ensures Run(s, front + [x]) == Next(Run(s, front), x)
    ensures var before := Run(s, front);
            Successes(s, front + [x], peer) == Successes(s, front, peer)
              + if x.PutDone? && x.t < |before.handlers| && before.handlers[x.t] == Putting(peer) then 1 else 0
  {
    assert (front + [x])[..|front|] == front;
  }

  lemma PutSteps(peer: Peer, max: nat, count: nat)
    requires count < max
    ensures Next(State(max, map[peer := count], [Idle, Idle]), Request(0, peer))
         == State(max, map[peer := count + 1], [Putting(peer), Idle])
    ensures Next(State(max, map[peer := count + 1], [Putting(peer), Idle]), PutDone(0))
         == State(max, map[peer := count + 1], [Idle, Idle])
  {
    assert map[peer := count][peer := count + 1] == map[peer := count + 1];
    assert [Idle, Idle][0 := Putting(peer)] == [Putting(peer), Idle];
    assert [Putting(peer), Idle][0 := Idle] == [Idle, Idle];
  }

  lemma OnePut(s: State, front: seq<Step>, peer: Peer, count: nat, successes: nat)
    requires count < s.max && LeadsTo(s, front, peer, count, successes)
    ensures LeadsTo(s, front + [Request(0, peer)] + [PutDone(0)], peer, count + 1, successes + 1)
  {
    PutSteps(peer, s.max, count);
    OneMore(s, front, Request(0, peer), peer);
    OneMore(s, front + [Request(0, peer)], PutDone(0), peer);
  }

  /**
   So the quota can be overrun: for every quota there is a run after which the peer has one more chunk put than
   it allows, none of them forgotten by a later prune.
   */
  lemma QuotaCanBeOverrun(peer: Peer, max: nat)
    requires max >= 1
    ensures var s := State(max, map[], [Idle, Idle]);
            var steps := ThenPuts(Undercounted(peer), peer, max);
            && Fresh(s) && Successes(s, steps, peer) == max + 1 && CountOf(Run(s, steps), peer) == max
  {
    PruneInFlightUndercounts(peer, max);
    PutsCount(State(max, map[], [Idle, Idle]), Undercounted(peer), peer, max, 1);
  }

  lemma OnlyTheLastSucceeds(s0: State, steps: seq<Step>, peer: Peer)
    requires |steps| == 5 && steps[4].PutDone? && forall n :: 0 <= n < 4 ==> !steps[n].PutDone?
    requires Run(s0, steps[..4]).handlers == [Idle, Putting(peer)] && steps[4].t == 1
    ensures Successes(s0, steps, peer) == 1
  {
    assert steps[..0] == [];
    SuccessStep(s0, steps, 0, peer);
    SuccessStep(s0, steps, 1, peer);
    SuccessStep(s0, steps, 2, peer);
    SuccessStep(s0, steps, 3, peer);
  }

  lemma RunStep(s0: State, steps: seq<Step>, n: nat, before: State, after: State)
    requires n < |steps| && Run(s0, steps[..n]) == before && Next(before, steps[n]) == after
    ensures Run(s0, steps[..n + 1]) == after
  {
    assert steps[..n + 1][..n] == steps[..n];
  }

  lemma SuccessStep(s0: State, steps: seq<Step>, n: nat, peer: Peer)
    requires n < |steps| && !steps[n].PutDone? && Successes(s0, steps[..n], peer) == 0
    ensures Successes(s0, steps[..n + 1], peer) == 0
  {
    assert steps[..n + 1][..n] == steps[..n];
  }
}
