/**
 The provider list of `do_get_providers` (`src/node.rs`): local records first, then those of every reply in
 query order, one record per node.
 */
module Providers {
  import opened Sequences
  import opened NodeIds
  import opened Addresses
  import opened Buckets
  import opened Nearest
  import opened Results
  import opened Lookups

  /** A node as it travels in messages. */
  datatype PeerRecord = PeerRecord(id: NodeId, publicKey: seq<bv8>, addresses: seq<SocketAddr>)

  datatype Reply = Reply(providers: seq<PeerRecord>, closer: seq<PeerRecord>)

  type AskProviders = NodeId -> Option<Reply>

  function AsNode(r: PeerRecord, now: Instant): NodeInfo {
    NewNode(r.id, r.publicKey, r.addresses, now)
  }

  function AsNodes(s: seq<PeerRecord>, now: Instant): seq<NodeInfo> {
    seq(|s|, i requires 0 <= i < |s| => AsNode(s[i], now))
  }

  /** What a reply contributes to the search. */
  function CloserAnswer(ask: AskProviders, now: Instant, id: NodeId): Option<seq<NodeInfo>> {
    match ask(id)
    case None => None
    case Some(reply) => Some(AsNodes(reply.closer, now))
  }

  function CloserOf(ask: AskProviders, now: Instant): (closer: Ask)
    ensures forall id :: closer(id) == CloserAnswer(ask, now, id)
  {
    (id: NodeId) => CloserAnswer(ask, now, id)
  }

  function RecordsOf(ask: AskProviders, id: NodeId): seq<PeerRecord> {
    match ask(id)
    case None => []
    case Some(reply) => reply.providers
  }

  function Collected(ask: AskProviders, asked: seq<NodeId>): seq<PeerRecord> {
    if asked == [] then []
    else Collected(ask, asked[..|asked| - 1]) + RecordsOf(ask, asked[|asked| - 1])
  }

  predicate HasRecord(s: seq<PeerRecord>, id: NodeId) {
    exists i :: 0 <= i < |s| && s[i].id == id
  }

  /** The records that no earlier record of the same node precedes. */
  function FirstPerNode(s: seq<PeerRecord>): seq<PeerRecord> {
    if s == [] then []
    else
      var front, x := s[..|s| - 1], s[|s| - 1];
      if HasRecord(front, x.id) then FirstPerNode(front) else FirstPerNode(front) + [x]
  }

  lemma HasRecordAppend(s: seq<PeerRecord>, x: PeerRecord, id: NodeId)
    ensures HasRecord(s + [x], id) <==> HasRecord(s, id) || x.id == id
  {
    if HasRecord(s, id) {
      var i :| 0 <= i < |s| && s[i].id == id;
      assert (s + [x])[i].id == id;
    } else if x.id == id {
      assert (s + [x])[|s|].id == id;
    }
  }

  /** Every node with a record keeps one. */
  lemma {:induction false} FirstPerNodeKeepsNodes(s: seq<PeerRecord>, id: NodeId)
    ensures HasRecord(FirstPerNode(s), id) <==> HasRecord(s, id)
  {
    if s != [] {
      var front, x := s[..|s| - 1], s[|s| - 1];
      FirstPerNodeKeepsNodes(front, id);
      FirstPerNodeKeepsNodes(front, x.id);
      assert s == front + [x];
      HasRecordAppend(front, x, id);
      HasRecordAppend(FirstPerNode(front), x, id);
    }
  }

  /** No node has two records. */
  lemma {:induction false} FirstPerNodeIsUnique(s: seq<PeerRecord>)
    ensures forall i, j :: 0 <= i < j < |FirstPerNode(s)| ==> FirstPerNode(s)[i].id != FirstPerNode(s)[j].id
  {
    if s != [] {
      FirstPerNodeIsUnique(s[..|s| - 1]);
      FirstPerNodeKeepsNodes(s[..|s| - 1], s[|s| - 1].id);
    }
  }

  ghost predicate IsFirstRecord(s: seq<PeerRecord>, i: nat) {
    i < |s| && forall j :: 0 <= j < i ==> s[j].id != s[i].id
  }

  lemma FirstRecordOfPrefix(s: seq<PeerRecord>, i: nat)
    requires s != [] && i < |s|
    ensures i < |s| - 1 ==> (IsFirstRecord(s[..|s| - 1], i) <==> IsFirstRecord(s, i))
    ensures i == |s| - 1 ==> (!HasRecord(s[..|s| - 1], s[i].id) <==> IsFirstRecord(s, i))
  {
    var front := s[..|s| - 1];
    assert forall j :: 0 <= j < |front| ==> front[j] == s[j];
  }

  /** What is kept is the first record of its node. */
  lemma {:induction false} FirstPerNodeIsFirst(s: seq<PeerRecord>, x: PeerRecord)
    ensures x in FirstPerNode(s) <==> exists i :: 0 <= i < |s| && s[i] == x && IsFirstRecord(s, i)
  {
    if s != [] {
      var n := |s| - 1;
      FirstPerNodeIsFirst(s[..n], x);
      FirstRecordOfPrefix(s, n);
      if x in FirstPerNode(s[..n]) {
        var i :| 0 <= i < n && s[..n][i] == x && IsFirstRecord(s[..n], i);
        FirstRecordOfPrefix(s, i);
      }
      if i :| 0 <= i < |s| && s[i] == x && IsFirstRecord(s, i) {
        FirstRecordOfPrefix(s, i);
        assert i < n ==> s[..n][i] == x;
      }
    }
  }

  /** Local records come first and are never displaced by what replies bring. */
  lemma {:induction false} LocalRecordsStay(local: seq<PeerRecord>, more: seq<PeerRecord>)
    ensures FirstPerNode(local) <= FirstPerNode(local + more)
  {
    if more == [] {
      assert local + more == local;
    } else {
      var n := |more| - 1;
      assert (local + more)[..|local + more| - 1] == local + more[..n];
      LocalRecordsStay(local, more[..n]);
    }
  }

  lemma {:induction false} CollectedAppend(ask: AskProviders, a: seq<NodeId>, b: seq<NodeId>)
    ensures Collected(ask, a + b) == Collected(ask, a) + Collected(ask, b)
  {
    if b == [] {
      assert a + b == a;
    } else {
      var n := |b| - 1;
      CollectedAppend(ask, a, b[..n]);
      assert a + b == a + b[..n] + [b[n]];
      CollectedLast(ask, a + b[..n], b[n]);
      Associative(Collected(ask, a), Collected(ask, b[..n]), RecordsOf(ask, b[n]));
    }
  }

  lemma CollectedLast(ask: AskProviders, a: seq<NodeId>, x: NodeId)
    ensures Collected(ask, a + [x]) == Collected(ask, a) + RecordsOf(ask, x)
  {
    assert (a + [x])[..|a|] == a;
  }

  // ----- what a search for providers gathers

  /** One of the asked peers replied with this provider record. */
  ghost predicate Replied(ask: AskProviders, asked: seq<NodeId>, x: PeerRecord) {
    exists p :: p in asked && ask(p).Some? && x in ask(p).value.providers
  }

  lemma RepliedWithLast(ask: AskProviders, asked: seq<NodeId>, p: NodeId, x: PeerRecord)
    ensures Replied(ask, asked + [p], x) <==>
              Replied(ask, asked, x) || (ask(p).Some? && x in ask(p).value.providers)
  {
    var all := asked + [p];
    if Replied(ask, asked, x) {
      var q :| q in asked && ask(q).Some? && x in ask(q).value.providers;
      assert q in all;
    }
    assert p in all;
  }

  lemma {:induction false} CollectedIsReplied(ask: AskProviders, asked: seq<NodeId>, x: PeerRecord)
    ensures x in Collected(ask, asked) <==> Replied(ask, asked, x)
  {
    if asked != [] {
      var front, last := asked[..|asked| - 1], asked[|asked| - 1];
      CollectedIsReplied(ask, front, x);
      assert asked == front + [last];
      RepliedWithLast(ask, front, last, x);
    }
  }

  /** The final list of providers, given whom the search asked. */
  function Gathered(local: seq<PeerRecord>, ask: AskProviders, asked: seq<NodeId>): seq<PeerRecord> {
    FirstPerNode(local + Collected(ask, asked))
  }

  /**
   Every node with a local record, or with a record in the reply of an asked peer, has one in the result; every
   record of the result is local or from such a reply; and local records lead.
   */
  lemma GatheredIsComplete(local: seq<PeerRecord>, ask: AskProviders, asked: seq<NodeId>)
    ensures var r := Gathered(local, ask, asked);
            && (forall x :: x in local || Replied(ask, asked, x) ==> HasRecord(r, x.id))
            && (forall x :: x in r ==> x in local || Replied(ask, asked, x))
            && FirstPerNode(local) <= r
  {
    var all := local + Collected(ask, asked);
    LocalRecordsStay(local, Collected(ask, asked));
    forall x | x in local || Replied(ask, asked, x) ensures HasRecord(FirstPerNode(all), x.id) {
      CollectedIsReplied(ask, asked, x);
      assert x in all;
      var i :| 0 <= i < |all| && all[i] == x;
      FirstPerNodeKeepsNodes(all, x.id);
    }
    forall x | x in FirstPerNode(all) ensures x in local || Replied(ask, asked, x) {
      FirstPerNodeIsFirst(all, x);
      assert x in all;
      CollectedIsReplied(ask, asked, x);
    }
  }

  lemma {:induction false} FirstPerNodeAgain(s: seq<PeerRecord>, more: seq<PeerRecord>)
    ensures FirstPerNode(FirstPerNode(s) + more) == FirstPerNode(s + more)
  {
    if more == [] {
      assert s + more == s && FirstPerNode(s) + more == FirstPerNode(s);
      FirstPerNodeOfKept(s);
    } else {
      var front, x := more[..|more| - 1], more[|more| - 1];
      FirstPerNodeAgain(s, front);
      var a, b := FirstPerNode(s) + front, s + front;
      assert FirstPerNode(s) + more == a + [x] && s + more == b + [x];
      FirstPerNodeKeepsNodes(a, x.id);
      FirstPerNodeKeepsNodes(b, x.id);
      assert (a + [x])[..|a|] == a && (b + [x])[..|b|] == b;
    }
  }

  lemma {:induction false} FirstPerNodeOfKept(s: seq<PeerRecord>)
    ensures FirstPerNode(FirstPerNode(s)) == FirstPerNode(s)
  {
    if s != [] {
      var front, x := s[..|s| - 1], s[|s| - 1];
      FirstPerNodeOfKept(front);
      FirstPerNodeKeepsNodes(front, x.id);
      assert (FirstPerNode(front) + [x])[..|FirstPerNode(front)|] == FirstPerNode(front);
    }
  }

  /**
   Reply by reply: nobody asked leaves the local records, and one more asked peer adds the records of its reply
   behind those of peers asked before it, each node's first record only.
   */
  lemma RepliesInOrder(local: seq<PeerRecord>, ask: AskProviders, asked: seq<NodeId>, p: NodeId)
    ensures Gathered(local, ask, []) == FirstPerNode(local)
    ensures var before := Gathered(local, ask, asked);
            && before <= Gathered(local, ask, asked + [p])
            && Gathered(local, ask, asked + [p])
                 == FirstPerNode(before + if ask(p).Some? then ask(p).value.providers else [])
  {
    assert local + [] == local;
    var all, more := local + Collected(ask, asked), RecordsOf(ask, p);
    CollectedLast(ask, asked, p);
    Associative(local, Collected(ask, asked), more);
    FirstPerNodeAgain(all, more);
    LocalRecordsStay(all, more);
  }

  // ----- what it knows

  /** One of the asked peers replied with this closer node. */
  ghost predicate Offered(ask: AskProviders, asked: seq<NodeId>, x: PeerRecord) {
    exists p :: p in asked && ask(p).Some? && x in ask(p).value.closer
  }

  /** `x` is what `NodeInfo::new` makes of a record. */
  ghost predicate IsNodeOf(x: NodeInfo, r: PeerRecord, now: Instant) {
    x.id == r.id && x.publicKey == r.publicKey && x.addresses == r.addresses && x.lastSeen == now && x.failCount == 0
  }

  lemma ReturnedIsOffered(ask: AskProviders, now: Instant, asked: seq<NodeId>, x: NodeInfo)
    ensures Returned(CloserOf(ask, now), asked, x) <==> exists r :: Offered(ask, asked, r) && IsNodeOf(x, r, now)
  {
    if Returned(CloserOf(ask, now), asked, x) {
      var p :| p in asked && CloserOf(ask, now)(p).Some? && x in CloserOf(ask, now)(p).value;
      assert CloserOf(ask, now)(p) == CloserAnswer(ask, now, p);
      var closer := ask(p).value.closer;
      var i :| 0 <= i < |closer| && AsNodes(closer, now)[i] == x;
      assert Offered(ask, asked, closer[i]) && IsNodeOf(x, closer[i], now);
    }
    if r :| Offered(ask, asked, r) && IsNodeOf(x, r, now) {
      var p :| p in asked && ask(p).Some? && r in ask(p).value.closer;
      var closer := ask(p).value.closer;
      var i :| 0 <= i < |closer| && closer[i] == r;
      assert AsNodes(closer, now)[i] == x;
      assert CloserOf(ask, now)(p) == CloserAnswer(ask, now, p);
    }
  }

  /** A seed, or a node other than the searching one that is in the reply of an asked peer. */
  ghost predicate IsOffered(self: NodeId, ask: AskProviders, seeds: seq<NodeInfo>, asked: seq<NodeId>, id: NodeId) {
    HasId(seeds, id) || (id != self && exists r :: Offered(ask, asked, r) && r.id == id)
  }

  lemma KnownIsOffered(l: Lookup, ask: AskProviders, seeds: seq<NodeInfo>, now: Instant, asked: seq<NodeId>, id: NodeId)
    ensures IsKnown(l, CloserOf(ask, now), seeds, asked, id) <==> IsOffered(l.self, ask, seeds, asked, id)
  {
    if x :| Returned(CloserOf(ask, now), asked, x) && x.id == id {
      ReturnedIsOffered(ask, now, asked, x);
    }
    if r :| Offered(ask, asked, r) && r.id == id {
      ReturnedIsOffered(ask, now, asked, AsNode(r, now));
      assert IsNodeOf(AsNode(r, now), r, now);
    }
  }

  /**
   After any number of rounds of a search for providers, the candidates are the `k` nearest of the seeds and the
   closer nodes in the replies of the asked peers: `k` of them, or all, and any other is farther.
   */
  lemma ProviderCandidatesAreExact(l: Lookup, ask: AskProviders, seeds: seq<NodeInfo>, now: Instant, n: nat)
    requires l.policy.TakeAll? && GoodSeeds(l, seeds)
    ensures var r := Rounds(l, CloserOf(ask, now), Start(l, seeds), n);
            && (forall i :: 0 <= i < |r.closest| ==> IsOffered(l.self, ask, seeds, r.asked, r.closest[i].id))
            && (|r.closest| == l.k || forall u :: IsOffered(l.self, ask, seeds, r.asked, u) ==> HasId(r.closest, u))
            && (forall u, i :: IsOffered(l.self, ask, seeds, r.asked, u) && !HasId(r.closest, u) && 0 <= i < |r.closest|
                  ==> Rank(l.target, r.closest[i].id) < Rank(l.target, u))
  {
    ProviderSearchIsExact(l, CloserOf(ask, now), seeds, n);
    var r := Rounds(l, CloserOf(ask, now), Start(l, seeds), n);
    forall u ensures IsKnown(l, CloserOf(ask, now), seeds, r.asked, u) <==> IsOffered(l.self, ask, seeds, r.asked, u) {
      KnownIsOffered(l, ask, seeds, now, r.asked, u);
    }
  }
}
