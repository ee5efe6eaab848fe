/**
 The two lookup procedures with their loops (`src/lookup/mod.rs`, `src/node.rs`), proved against the searches
 on values.
 */
module IterativeLookups {
  import opened Sequences
  import opened NodeIds
  import opened Buckets
  import opened Nearest
  import opened Results
  import opened Lookups
  import opened Providers

  /** `iterative_find_node`. */
  method IterativeFindNode(target: NodeId, selfId: NodeId, seeds: seq<NodeInfo>, k: nat, alpha: nat, ask: Ask)
    returns (closest: seq<NodeInfo>)
    ensures closest == Outcome(Lookup(BeatsLast, target, selfId, k, alpha), ask, seeds).closest
  {
    var l := Lookup(BeatsLast, target, selfId, k, alpha);
    closest := FindNodeRounds(l, seeds, ask, RoundOf(l, ask), MAX_ROUNDS);
  }

  method FindNodeRounds(l: Lookup, seeds: seq<NodeInfo>, ask: Ask, ghost step: Step, maxRounds: nat)
    returns (closest: seq<NodeInfo>)
    requires l.policy.BeatsLast? && forall x {:trigger Round(l, ask, x)} :: step(x) == Round(l, ask, x)
    ensures closest == Iterate(step, Start(l, seeds), maxRounds).closest
  {
    ghost var s := Start(l, seeds);
    var queried := {l.self};
    closest := seeds;
    for round := 0 to maxRounds
      invariant s.closest == closest && s.queried == queried
      invariant Iterate(step, s, maxRounds - round) == Iterate(step, Start(l, seeds), maxRounds)
    {
      var toQuery := ToQuery(closest, queried, l.alpha);
      if toQuery == [] {
        RoundStops(l, ask, step, s);
        break;
      }
      queried := MarkQueried(queried, toQuery);
      var improved;
      closest, improved := CollectAnswers(l, closest, toQuery, ask);
      closest := SortByDistance(l.target, closest);
      closest := Truncate(closest, l.k);
      s := Round(l, ask, s).0;
      if !improved {
        break;
      }
    }
  }

  method MarkQueried(queried: set<NodeId>, peers: seq<NodeInfo>) returns (marked: set<NodeId>)
    ensures marked == queried + IdSet(peers)
  {
    marked := queried;
    for i := 0 to |peers|
      invariant marked == queried + IdSet(peers[..i])
    {
      assert peers[..i + 1] == peers[..i] + [peers[i]];
      IdSetAppend(peers[..i], [peers[i]]);
      marked := marked + {peers[i].id};
      assert IdSet([peers[i]]) == {peers[i].id};
    }
    assert peers[..|peers|] == peers;
  }

  method CollectAnswers(l: Lookup, candidates: seq<NodeInfo>, peers: seq<NodeInfo>, ask: Ask)
    returns (closest: seq<NodeInfo>, improved: bool)
    requires l.policy.BeatsLast? && candidates != []
    ensures closest == OfferAll(l, candidates, Answers(ask, peers))
    ensures improved <==> |closest| > |candidates|
  {
    closest, improved := candidates, false;
    for i := 0 to |peers|
      invariant closest == OfferAll(l, candidates, Answers(ask, peers[..i]))
      invariant |closest| >= |candidates| && (improved <==> |closest| > |candidates|)
    {
      assert peers[..i + 1][..i] == peers[..i];
      OfferAllAppend(l, candidates, Answers(ask, peers[..i]), AnswerOf(ask, peers[i].id));
      var reply := ask(peers[i].id);
      if reply.None? {
        continue;
      }
      var more;
      closest, more := OfferReturned(l, closest, reply.value);
      improved := improved || more;
    }
    assert peers[..|peers|] == peers;
  }

  method OfferReturned(l: Lookup, candidates: seq<NodeInfo>, nodes: seq<NodeInfo>)
    returns (closest: seq<NodeInfo>, improved: bool)
    requires l.policy.BeatsLast? && candidates != []
    ensures closest == OfferAll(l, candidates, nodes)
    ensures |closest| >= |candidates| && (improved <==> |closest| > |candidates|)
  {
    closest, improved := candidates, false;
    for j := 0 to |nodes|
      invariant closest == OfferAll(l, candidates, nodes[..j])
      invariant |closest| >= |candidates| && (improved <==> |closest| > |candidates|)
    {
      assert nodes[..j + 1][..j] == nodes[..j];
      var node := nodes[j];
      if node.id == l.self {
        continue;
      }
      if (|closest| < l.k || Closer(l.target, node.id, closest[|closest| - 1].id)) && !HasId(closest, node.id) {
        closest := closest + [node];
        improved := true;
      }
    }
    assert nodes[..|nodes|] == nodes;
  }

  /** The provider lookup: the same rounds with an exact merge, and the collected provider records. */
  method GetProviders(target: NodeId, selfId: NodeId, seeds: seq<NodeInfo>, local: seq<PeerRecord>,
                      k: nat, alpha: nat, ask: AskProviders, now: Instant)
    returns (providers: seq<PeerRecord>, candidates: seq<NodeInfo>)
    ensures var search := Outcome(Lookup(TakeAll, target, selfId, k, alpha), CloserOf(ask, now), seeds);
            && candidates == search.closest
            && providers == Gathered(local, ask, search.asked)
  {
    var l, all := Lookup(TakeAll, target, selfId, k, alpha), local;
    ghost var closer := CloserOf(ask, now);
    all, candidates := ProviderRounds(l, seeds, local, ask, closer, RoundOf(l, closer), now, MAX_ROUNDS);
    providers := KeepFirst(all);
  }

  method ProviderRounds(l: Lookup, seeds: seq<NodeInfo>, local: seq<PeerRecord>, ask: AskProviders,
                        ghost closer: Ask, ghost step: Step, now: Instant, maxRounds: nat)
    returns (all: seq<PeerRecord>, candidates: seq<NodeInfo>)
    requires l.policy.TakeAll?
    requires forall id {:trigger CloserAnswer(ask, now, id)} :: closer(id) == CloserAnswer(ask, now, id)
    requires forall x {:trigger Round(l, closer, x)} :: step(x) == Round(l, closer, x)
    ensures var search := Iterate(step, Start(l, seeds), maxRounds);
            candidates == search.closest && all == local + Collected(ask, search.asked)
  {
    ghost var s := Start(l, seeds);
    var queried := {l.self};
    all, candidates := local, seeds;
    for round := 0 to maxRounds
      invariant s.closest == candidates && s.queried == queried
      invariant all == local + Collected(ask, s.asked)
      invariant Iterate(step, s, maxRounds - round) == Iterate(step, Start(l, seeds), maxRounds)
    {
      var toQuery := ToQuery(candidates, queried, l.alpha);
      if toQuery == [] {
        RoundStops(l, closer, step, s);
        break;
      }
      ghost var asked := s.asked;
      var records, improved;
      queried, candidates, records, improved, s :=
        ProviderRound(l, s, queried, candidates, toQuery, ask, closer, step, now);
      all := all + records;
      CollectedAppend(ask, asked, IdSeq(toQuery));
      Associative(local, Collected(ask, asked), records);
      if !improved {
        break;
      }
    }
  }

  /** The body of the loop: ask everyone, merge, sort and truncate. */
  method ProviderRound(l: Lookup, ghost s: Search, queried: set<NodeId>, candidates: seq<NodeInfo>,
                       toQuery: seq<NodeInfo>, ask: AskProviders, ghost closer: Ask, ghost step: Step, now: Instant)
    returns (queried': set<NodeId>, candidates': seq<NodeInfo>, records: seq<PeerRecord>, improved: bool,
             ghost s': Search)
    requires l.policy.TakeAll? && s.closest == candidates && s.queried == queried
    requires toQuery == ToQuery(candidates, queried, l.alpha) && toQuery != []
    requires forall id {:trigger CloserAnswer(ask, now, id)} :: closer(id) == CloserAnswer(ask, now, id)
    requires forall x {:trigger Round(l, closer, x)} :: step(x) == Round(l, closer, x)
    ensures s'.queried == queried' && s'.closest == candidates' && s'.asked == s.asked + IdSeq(toQuery)
    ensures step(s) == (s', improved)
    ensures records == Collected(ask, IdSeq(toQuery))
  {
    queried' := MarkQueried(queried, toQuery);
    records, candidates', improved := CollectReplies(l, l.self, candidates, toQuery, ask, closer, now);
    candidates' := SortByDistance(l.target, candidates');
    candidates' := Truncate(candidates', l.k);
    s' := Round(l, closer, s).0;
  }

  method CollectReplies(ghost l: Lookup, selfId: NodeId, candidates: seq<NodeInfo>, peers: seq<NodeInfo>,
                        ask: AskProviders, ghost closer: Ask, now: Instant)
    returns (records: seq<PeerRecord>, merged: seq<NodeInfo>, improved: bool)
    requires l.policy.TakeAll? && l.self == selfId
    requires forall id {:trigger CloserAnswer(ask, now, id)} :: closer(id) == CloserAnswer(ask, now, id)
    ensures records == Collected(ask, IdSeq(peers))
    ensures merged == OfferAll(l, candidates, Answers(closer, peers))
    ensures improved <==> |merged| > |candidates|
  {
    records, merged, improved := [], candidates, false;
    for i := 0 to |peers|
      invariant records == Collected(ask, IdSeq(peers[..i]))
      invariant merged == OfferAll(l, candidates, Answers(closer, peers[..i]))
      invariant |merged| >= |candidates| && (improved <==> |merged| > |candidates|)
    {
      var id := peers[i].id;
      assert peers[..i + 1][..i] == peers[..i];
      assert IdSeq(peers[..i + 1])[..i] == IdSeq(peers[..i]);
      OfferAllAppend(l, candidates, Answers(closer, peers[..i]), AnswerOf(closer, id));
      assert closer(id) == CloserAnswer(ask, now, id);
      var reply := ask(id);
      if reply.None? {
        continue;
      }
      records := records + reply.value.providers;
      var more;
      merged, more := MergeCloser(l, selfId, merged, reply.value.closer, now);
      improved := improved || more;
    }
    assert peers[..|peers|] == peers;
  }

  method MergeCloser(ghost l: Lookup, selfId: NodeId, candidates: seq<NodeInfo>, closer: seq<PeerRecord>,
                     now: Instant)
    returns (merged: seq<NodeInfo>, improved: bool)
    requires l.policy.TakeAll? && l.self == selfId
    ensures merged == OfferAll(l, candidates, AsNodes(closer, now))
    ensures |merged| >= |candidates| && (improved <==> |merged| > |candidates|)
  {
    merged, improved := candidates, false;
    ghost var nodes := AsNodes(closer, now);
    for j := 0 to |closer|
      invariant merged == OfferAll(l, candidates, nodes[..j])
      invariant |merged| >= |candidates| && (improved <==> |merged| > |candidates|)
    {
      assert nodes[..j + 1][..j] == nodes[..j];
      var n := closer[j];
      if n.id == selfId {
        continue;
      }
      if !HasId(merged, n.id) {
        merged := merged + [NewNode(n.id, n.publicKey, n.addresses, now)];
        improved := true;
      }
    }
    assert nodes[..|nodes|] == nodes;
  }

  /** `retain(|p| seen.insert(p.node_id))`. */
  method KeepFirst(records: seq<PeerRecord>) returns (kept: seq<PeerRecord>)
    ensures kept == FirstPerNode(records)
  {
    var seen: set<NodeId> := {};
    kept := [];
    for i := 0 to |records|
      invariant kept == FirstPerNode(records[..i])
      invariant forall id :: id in seen <==> HasRecord(records[..i], id)
    {
      var p := records[i];
      assert records[..i + 1][..i] == records[..i];
      forall id ensures HasRecord(records[..i + 1], id) <==> HasRecord(records[..i], id) || id == p.id {
        if HasRecord(records[..i], id) {
          var j :| 0 <= j < i && records[..i][j].id == id;
          assert records[..i + 1][j].id == id;
        } else if id == p.id {
          assert records[..i + 1][i].id == id;
        }
      }
      if p.id !in seen {
        seen := seen + {p.id};
        kept := kept + [p];
      }
    }
    assert records[..|records|] == records;
  }
}
