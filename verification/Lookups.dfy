/**
 The two iterative lookups of the DHT as round-by-round searches on values: `iterative_find_node`
 (`src/lookup/mod.rs`), which lets a node in if it beats the last candidate, and the loop of
 `do_get_providers` (`src/node.rs`), which takes every new node before it sorts and truncates.  Peers are an
 arbitrary answer function; each peer is asked at most once, so one answer per peer is the general case.
 */
module Lookups {
  import opened Sequences
  import opened NodeIds
  import opened Buckets
  import opened Nearest
  import opened Results
  import opened Routing

  const MAX_ROUNDS := 10

  datatype Policy = BeatsLast | TakeAll

  datatype Lookup = Lookup(policy: Policy, target: NodeId, self: NodeId, k: nat, alpha: nat)

  /** `asked` and `heard` record the queries and the returned nodes in order. */
  datatype Search = Search(
    closest: seq<NodeInfo>, queried: set<NodeId>, asked: seq<NodeId>, heard: seq<NodeInfo>)

  type Ask = NodeId -> Option<seq<NodeInfo>>

  /** The candidates not yet asked that have an address, in order. */
  function Eligible(s: seq<NodeInfo>, queried: set<NodeId>): seq<NodeInfo> {
    if s == [] then []
    else
      var front, x := Eligible(s[..|s| - 1], queried), s[|s| - 1];
      if x.id !in queried && x.addresses != [] then front + [x] else front
  }

  function ToQuery(s: seq<NodeInfo>, queried: set<NodeId>, alpha: nat): seq<NodeInfo> {
    Truncate(Eligible(s, queried), alpha)
  }

  /** One returned node meets the candidates. */
  function Offer(l: Lookup, closest: seq<NodeInfo>, node: NodeInfo): seq<NodeInfo> {
    if node.id == l.self || HasId(closest, node.id) then closest
    else if l.policy.BeatsLast? && |closest| >= l.k
      && !(closest != [] && Closer(l.target, node.id, closest[|closest| - 1].id)) then closest
    else closest + [node]
  }

  function OfferAll(l: Lookup, closest: seq<NodeInfo>, nodes: seq<NodeInfo>): seq<NodeInfo> {
    if nodes == [] then closest
    else Offer(l, OfferAll(l, closest, nodes[..|nodes| - 1]), nodes[|nodes| - 1])
  }

  function AnswerOf(ask: Ask, id: NodeId): seq<NodeInfo> {
    match ask(id)
    case None => []
    case Some(nodes) => nodes
  }

  /** Everything the queried peers returned, in query order. */
  function Answers(ask: Ask, peers: seq<NodeInfo>): seq<NodeInfo> {
    if peers == [] then []
    else Answers(ask, peers[..|peers| - 1]) + AnswerOf(ask, peers[|peers| - 1].id)
  }

  function IdSeq(s: seq<NodeInfo>): (r: seq<NodeId>)
    ensures |r| == |s| && forall i :: 0 <= i < |s| ==> r[i] == s[i].id
  {
    seq(|s|, i requires 0 <= i < |s| => s[i].id)
  }

  function IdSet(s: seq<NodeInfo>): set<NodeId> {
    set x | x in s :: x.id
  }

  /** The candidate list after a round in which `nodes` were returned. */
  function Settle(l: Lookup, closest: seq<NodeInfo>, nodes: seq<NodeInfo>): seq<NodeInfo> {
    FullSort(l.target, OfferAll(l, closest, nodes), l.k)
  }

  /** A round, and whether another one follows. */
  function Round(l: Lookup, ask: Ask, s: Search): (Search, bool) {
    var peers := ToQuery(s.closest, s.queried, l.alpha);
    if peers == [] then (s, false)
    else
      var nodes := Answers(ask, peers);
      (Search(Settle(l, s.closest, nodes), s.queried + IdSet(peers), s.asked + IdSeq(peers), s.heard + nodes),
       |OfferAll(l, s.closest, nodes)| > |s.closest|)
  }

  type Step = Search -> (Search, bool)

  /** Repeat a step up to `n` times, as long as it asks for another one. */
  function Iterate(step: Step, s: Search, n: nat): Search
    decreases n
  {
    if n == 0 then s
    else
      var (s', more) := step(s);
      if more then Iterate(step, s', n - 1) else s'
  }

  function RoundOf(l: Lookup, ask: Ask): (step: Step)
    ensures forall x {:trigger Round(l, ask, x)} :: step(x) == Round(l, ask, x)
  {
    (x: Search) => Round(l, ask, x)
  }

  function Rounds(l: Lookup, ask: Ask, s: Search, n: nat): Search {
    Iterate(RoundOf(l, ask), s, n)
  }

  function Start(l: Lookup, seeds: seq<NodeInfo>): Search {
    Search(seeds, {l.self}, [], [])
  }

  function Outcome(l: Lookup, ask: Ask, seeds: seq<NodeInfo>): Search {
    Rounds(l, ask, Start(l, seeds), MAX_ROUNDS)
  }

  /** What `closest_nodes(target, k)` of a table without the local id delivers as seeds. */
  ghost predicate GoodSeeds(l: Lookup, seeds: seq<NodeInfo>) {
    StrictlySorted(l.target, seeds) && |seeds| <= l.k && !HasId(seeds, l.self)
  }

  /**
   The seeds of both lookups are what this asks for unless the table returns an id twice, which it never does while
   residents are distinct.
   */
  lemma TableGivesGoodSeeds(tb: Table, l: Lookup)
    requires Placed(tb) && l.self == tb.local
    ensures GoodSeeds(l, ClosestNodes(tb, l.target, l.k)) <==> Distinct(ClosestNodes(tb, l.target, l.k))
    ensures AllDistinct(tb) ==> GoodSeeds(l, ClosestNodes(tb, l.target, l.k))
  {
    var r := ClosestNodes(tb, l.target, l.k);
    AnswersAreResidents(tb, l.target, l.k);
    forall i | 0 <= i < |r| ensures r[i].id != l.self { assert r[i] in r; }
    ClosestNodesSound(tb, l.target, l.k);
    DistinctSortedIsStrict(l.target, r);
  }

  // ----- candidates

  lemma {:induction false} OfferAllAppend(l: Lookup, c: seq<NodeInfo>, a: seq<NodeInfo>, b: seq<NodeInfo>)
    ensures OfferAll(l, c, a + b) == OfferAll(l, OfferAll(l, c, a), b)
  {
    if b == [] {
      assert a + b == a;
    } else {
      var n := |b| - 1;
      assert (a + b)[..|a + b| - 1] == a + b[..n];
      OfferAllAppend(l, c, a, b[..n]);
    }
  }

  /** Offering only appends; what is appended is new, was returned, and is not the searching node. */
  lemma {:induction false} OfferAllGrows(l: Lookup, c: seq<NodeInfo>, nodes: seq<NodeInfo>)
    requires Distinct(c)
    ensures c <= OfferAll(l, c, nodes) && Distinct(OfferAll(l, c, nodes))
    ensures forall x :: x in OfferAll(l, c, nodes) ==> x in c || (x in nodes && x.id != l.self)
  {
    if nodes != [] {
      OfferAllGrows(l, c, nodes[..|nodes| - 1]);
    }
  }

  /** Every returned node is matched by some candidate at least as close (the same one, if all are taken). */
  lemma {:induction false} OfferedIsMatched(l: Lookup, c: seq<NodeInfo>, nodes: seq<NodeInfo>, x: NodeInfo)
    requires x in nodes && x.id != l.self
    requires l.policy.BeatsLast? ==> l.k >= 1
    ensures l.policy.TakeAll? ==> HasId(OfferAll(l, c, nodes), x.id)
    ensures exists y :: y in OfferAll(l, c, nodes) && Rank(l.target, y.id) <= Rank(l.target, x.id)
  {
    var n := |nodes| - 1;
    var front := OfferAll(l, c, nodes[..n]);
    if x == nodes[n] {
      if HasId(front, x.id) {
        var i :| 0 <= i < |front| && front[i].id == x.id;
        assert front[i] in front;
      } else if |front| >= l.k && l.policy.BeatsLast? {
        assert front[|front| - 1] in front;
        assert Offer(l, front, x) == front || x in front + [x];
      } else {
        assert x in front + [x];
      }
    } else {
      assert x in nodes[..n];
      OfferedIsMatched(l, c, nodes[..n], x);
      assert front <= OfferAll(l, c, nodes);
      forall y | y in front ensures y in OfferAll(l, c, nodes) {}
    }
  }

  /** With distinct ids, containment of ids bounds the length. */
  lemma {:induction false} IdsFit(a: seq<NodeInfo>, b: seq<NodeInfo>)
    requires Distinct(a)
    requires forall i :: 0 <= i < |a| ==> HasId(b, a[i].id)
    ensures |a| <= |b|
  {
    if a != [] {
      var n := |a| - 1;
      var p := IndexOf(b, a[n].id);
      var rest := RemoveAt(b, p);
      forall i | 0 <= i < n ensures HasId(rest, a[..n][i].id) {
        var q := IndexOf(b, a[i].id);
        assert rest[if q < p then q else q - 1].id == a[i].id;
      }
      IdsFit(a[..n], rest);
    }
  }

  /** More ids to choose from never make the i-th nearest farther. */
  lemma SupersetIsNearer(t: NodeId, a: seq<NodeInfo>, b: seq<NodeInfo>)
    requires StrictlySorted(t, a) && StrictlySorted(t, b)
    requires forall i :: 0 <= i < |a| ==> HasId(b, a[i].id)
    ensures |a| <= |b|
    ensures forall i :: 0 <= i < |a| ==> Rank(t, b[i].id) <= Rank(t, a[i].id)
  {
    StrictIsDistinct(t, a);
    IdsFit(a, b);
    forall i | 0 <= i < |a| ensures Rank(t, b[i].id) <= Rank(t, a[i].id) {
      if Rank(t, a[i].id) < Rank(t, b[i].id) {
        forall j | 0 <= j < i + 1 ensures HasId(b[..i], a[j].id) {
          var p := IndexOf(b, a[j].id);
          assert Rank(t, a[j].id) <= Rank(t, a[i].id);
          assert p < i;
          assert b[..i][p].id == a[j].id;
        }
        IdsFit(a[..i + 1], b[..i]);
      }
    }
  }

  lemma StrictIsDistinct(t: NodeId, a: seq<NodeInfo>)
    requires StrictlySorted(t, a)
    ensures Distinct(a)
  {
    forall i, j | 0 <= i < j < |a| ensures a[i].id != a[j].id {
      assert Rank(t, a[i].id) < Rank(t, a[j].id);
    }
  }

  /** The candidate list after a round: still sorted, distinct, self-free and at most `k` long. */
  lemma SettleKeepsGood(l: Lookup, c: seq<NodeInfo>, nodes: seq<NodeInfo>)
    requires GoodSeeds(l, c)
    ensures GoodSeeds(l, Settle(l, c, nodes))
    ensures forall x :: x in Settle(l, c, nodes) ==> x in c || (x in nodes && x.id != l.self)
  {
    StrictIsDistinct(l.target, c);
    OfferAllGrows(l, c, nodes);
    var all, r := OfferAll(l, c, nodes), Settle(l, c, nodes);
    FullSortIsNearest(l.target, all, l.k);
    forall i | 0 <= i < |r| ensures r[i].id != l.self {
      assert r[i] in r;
      if r[i] in c { HasIdOfMember(c, r[i]); }
    }
  }

  /** From round to round the i-th nearest candidate never gets farther. */
  lemma SettleNeverWorse(l: Lookup, c: seq<NodeInfo>, nodes: seq<NodeInfo>)
    requires GoodSeeds(l, c)
    ensures |c| <= |Settle(l, c, nodes)|
    ensures forall i :: 0 <= i < |c| ==> Rank(l.target, Settle(l, c, nodes)[i].id) <= Rank(l.target, c[i].id)
  {
    StrictIsDistinct(l.target, c);
    OfferAllGrows(l, c, nodes);
    var all := OfferAll(l, c, nodes);
    var sorted := SortByDistance(l.target, all);
    SortSorts(l.target, all);
    forall i | 0 <= i < |c| ensures HasId(sorted, c[i].id) {
      assert all[i] == c[i] && all[i] in all;
      HasIdOfMember(sorted, c[i]);
    }
    SupersetIsNearer(l.target, c, sorted);
  }

  // ----- whom a round asks

  lemma {:induction false} EligibleMembers(s: seq<NodeInfo>, queried: set<NodeId>)
    ensures forall x :: x in Eligible(s, queried) <==> x in s && x.id !in queried && x.addresses != []
    ensures |Eligible(s, queried)| <= |s|
  {
    if s != [] { EligibleMembers(s[..|s| - 1], queried); }
  }

  lemma {:induction false} EligibleSorted(t: NodeId, s: seq<NodeInfo>, queried: set<NodeId>)
    requires StrictlySorted(t, s)
    ensures StrictlySorted(t, Eligible(s, queried))
  {
    if s != [] {
      var n := |s| - 1;
      var front := Eligible(s[..n], queried);
      EligibleSorted(t, s[..n], queried);
      EligibleMembers(s[..n], queried);
      forall i | 0 <= i < |front| ensures Rank(t, front[i].id) < Rank(t, s[n].id) {
        assert front[i] in front && front[i] in s[..n];
      }
      SortedWithLast(t, front, s[n]);
    }
  }

  lemma SortedWithLast(t: NodeId, s: seq<NodeInfo>, x: NodeInfo)
    requires StrictlySorted(t, s) && forall i :: 0 <= i < |s| ==> Rank(t, s[i].id) < Rank(t, x.id)
    ensures StrictlySorted(t, s + [x])
  {
  }

  /**
   A round asks the `alpha` nearest candidates that are unasked and addressable: members of that group,
   `alpha` of them unless there are fewer, and every other member is farther away.
   */
  lemma RoundAsksNearest(l: Lookup, s: Search)
    requires StrictlySorted(l.target, s.closest)
    ensures var group, peers := Eligible(s.closest, s.queried), ToQuery(s.closest, s.queried, l.alpha);
            && (forall x :: x in group <==> x in s.closest && x.id !in s.queried && x.addresses != [])
            && AreNearest(l.target, peers, group, l.alpha)
  {
    EligibleMembers(s.closest, s.queried);
    EligibleSorted(l.target, s.closest, s.queried);
    var group := Eligible(s.closest, s.queried);
    StrictIsDistinct(l.target, group);
    SortOfSorted(l.target, group);
    FullSortIsNearest(l.target, group, l.alpha);
  }

  // ----- whole searches

  ghost predicate NoRepeats(s: seq<NodeId>) {
    forall i, j :: 0 <= i < j < |s| ==> s[i] != s[j]
  }

  ghost predicate Queries(l: Lookup, s: Search) {
    && NoRepeats(s.asked) && l.self !in s.asked
    && (forall id :: id in s.queried <==> id == l.self || id in s.asked)
  }

  /** Everything a search may return: seeds and returned nodes other than the searching node. */
  ghost function Known(l: Lookup, seeds: seq<NodeInfo>, s: Search): set<NodeId> {
    IdSet(seeds) + (IdSet(s.heard) - {l.self})
  }

  /** What every step keeps holds after any number of steps. */
  lemma {:induction false} InvariantOfIteration(step: Step, inv: Search -> bool, s: Search, n: nat)
    requires inv(s) && forall x {:trigger step(x)} :: inv(x) ==> inv(step(x).0)
    ensures inv(Iterate(step, s, n))
    decreases n
  {
    if n > 0 {
      var (s', more) := step(s);
      if more {
        InvariantOfIteration(step, inv, s', n - 1);
      }
    }
  }

  /** What a step can add, `n` steps can add `n` times. */
  lemma {:induction false} GrowthOfIteration(step: Step, inv: Search -> bool, d: nat, s: Search, n: nat)
    requires inv(s)
    requires forall x {:trigger step(x)} :: inv(x) ==> inv(step(x).0) && |step(x).0.asked| <= |x.asked| + d
    ensures |Iterate(step, s, n).asked| <= |s.asked| + n * d
    decreases n
  {
    if n > 0 {
      var (s', more) := step(s);
      if more {
        GrowthOfIteration(step, inv, d, s', n - 1);
      }
      MoreRounds(n, d);
    }
  }

  lemma RoundStops(l: Lookup, ask: Ask, step: Step, s: Search)
    requires step(s) == Round(l, ask, s)
    requires ToQuery(s.closest, s.queried, l.alpha) == []
    ensures step(s) == (s, false)
  {
  }

  lemma RoundKeepsGood(l: Lookup, ask: Ask, s: Search)
    requires GoodSeeds(l, s.closest)
    ensures GoodSeeds(l, Round(l, ask, s).0.closest)
  {
    SettleKeepsGood(l, s.closest, Answers(ask, ToQuery(s.closest, s.queried, l.alpha)));
  }

  lemma AskingOnce(l: Lookup, s: Search, peers: seq<NodeInfo>)
    requires Queries(l, s) && Distinct(peers)
    requires forall x :: x in peers ==> x.id !in s.queried
    ensures NoRepeats(s.asked + IdSeq(peers)) && l.self !in s.asked + IdSeq(peers)
    ensures forall id :: id in s.queried + IdSet(peers) <==> id == l.self || id in s.asked + IdSeq(peers)
  {
    var ids := IdSeq(peers);
    forall i | 0 <= i < |ids| ensures ids[i] !in s.queried && ids[i] in IdSet(peers) {
      assert peers[i] in peers;
    }
    forall id | id in IdSet(peers) ensures id in ids {
      var x :| x in peers && x.id == id;
      var i :| 0 <= i < |peers| && peers[i] == x;
      assert ids[i] == id;
    }
  }

  lemma RoundKeepsQueries(l: Lookup, ask: Ask, s: Search)
    requires GoodSeeds(l, s.closest) && Queries(l, s)
    ensures var s' := Round(l, ask, s).0;
            GoodSeeds(l, s'.closest) && Queries(l, s') && |s'.asked| <= |s.asked| + l.alpha
  {
    var peers := ToQuery(s.closest, s.queried, l.alpha);
    if peers != [] {
      RoundAsksNearest(l, s);
      StrictIsDistinct(l.target, peers);
      AskingOnce(l, s, peers);
      SettleKeepsGood(l, s.closest, Answers(ask, peers));
    }
  }

  /**
   For every behaviour of the peers: no peer is asked twice, the searching node is neither asked nor
   returned, at most `n * alpha` queries are made in `n` rounds, and the result is sorted, duplicate-free and
   at most `k` long.
   */
  lemma SearchIsDisciplined(l: Lookup, ask: Ask, s: Search, n: nat)
    requires GoodSeeds(l, s.closest) && Queries(l, s)
    ensures var r := Rounds(l, ask, s, n);
            GoodSeeds(l, r.closest) && Queries(l, r) && |r.asked| <= |s.asked| + n * l.alpha
  {
    var inv := (x: Search) => GoodSeeds(l, x.closest) && Queries(l, x);
    var step := RoundOf(l, ask);
    forall x | inv(x) ensures inv(step(x).0) && |step(x).0.asked| <= |x.asked| + l.alpha {
      assert step(x) == Round(l, ask, x);
      RoundKeepsQueries(l, ask, x);
    }
    InvariantOfIteration(step, inv, s, n);
    GrowthOfIteration(step, inv, l.alpha, s, n);
  }

  lemma MoreRounds(n: nat, alpha: nat)
    requires n > 0
    ensures n * alpha == (n - 1) * alpha + alpha && (n - 1) * alpha >= 0
  {
  }

  lemma OutcomeIsDisciplined(l: Lookup, ask: Ask, seeds: seq<NodeInfo>)
    requires GoodSeeds(l, seeds)
    ensures var r := Outcome(l, ask, seeds);
            && NoRepeats(r.asked) && l.self !in r.asked && |r.asked| <= 10 * l.alpha
            && StrictlySorted(l.target, r.closest) && |r.closest| <= l.k && !HasId(r.closest, l.self)
  {
    SearchIsDisciplined(l, ask, Start(l, seeds), MAX_ROUNDS);
  }

  // ----- what a search hears

  /** One of the asked peers answered with this node. */
  ghost predicate Returned(ask: Ask, asked: seq<NodeId>, x: NodeInfo) {
    exists p :: p in asked && ask(p).Some? && x in ask(p).value
  }

  /** A seed, or a node other than the searching one that an asked peer returned. */
  ghost predicate IsKnown(l: Lookup, ask: Ask, seeds: seq<NodeInfo>, asked: seq<NodeId>, id: NodeId) {
    HasId(seeds, id) || (id != l.self && exists x :: Returned(ask, asked, x) && x.id == id)
  }

  /** The answers of one group of peers after the other, and the answer of one peer: all there is to a round's. */
  lemma {:induction false} AnswersInOrder(ask: Ask, a: seq<NodeInfo>, b: seq<NodeInfo>, p: NodeInfo)
    ensures Answers(ask, a + b) == Answers(ask, a) + Answers(ask, b)
    ensures Answers(ask, [p]) == if ask(p.id).Some? then ask(p.id).value else []
  {
    if b == [] {
      assert a + b == a;
    } else {
      var front, last := b[..|b| - 1], b[|b| - 1];
      AnswersInOrder(ask, a, front, p);
      assert (a + b)[..|a + b| - 1] == a + front;
      Associative(Answers(ask, a), Answers(ask, front), AnswerOf(ask, last.id));
    }
    assert [p][..0] == [];
  }

  lemma {:induction false} AnswersAreReturned(ask: Ask, peers: seq<NodeInfo>, x: NodeInfo)
    ensures x in Answers(ask, peers) <==> Returned(ask, IdSeq(peers), x)
  {
    if peers != [] {
      var front, last := peers[..|peers| - 1], peers[|peers| - 1];
      AnswersAreReturned(ask, front, x);
      assert IdSeq(peers) == IdSeq(front) + [last.id];
      ReturnedAppend(ask, IdSeq(front), [last.id], x);
      assert Returned(ask, [last.id], x) <==> x in AnswerOf(ask, last.id) by {
        assert last.id in [last.id];
      }
    }
  }

  lemma ReturnedAppend(ask: Ask, a: seq<NodeId>, b: seq<NodeId>, x: NodeInfo)
    ensures Returned(ask, a + b, x) <==> Returned(ask, a, x) || Returned(ask, b, x)
  {
    if Returned(ask, a, x) {
      var p :| p in a && ask(p).Some? && x in ask(p).value;
      assert p in a + b;
    }
    if Returned(ask, b, x) {
      var p :| p in b && ask(p).Some? && x in ask(p).value;
      assert p in a + b;
    }
  }

  /** The record of a search is that of what the asked peers returned. */
  ghost predicate HeardIsReturned(ask: Ask, s: Search) {
    forall x :: x in s.heard <==> Returned(ask, s.asked, x)
  }

  lemma RoundKeepsHeard(l: Lookup, ask: Ask, s: Search)
    requires HeardIsReturned(ask, s)
    ensures HeardIsReturned(ask, Round(l, ask, s).0)
  {
    var peers, s' := ToQuery(s.closest, s.queried, l.alpha), Round(l, ask, s).0;
    if peers != [] {
      forall x ensures x in s'.heard <==> Returned(ask, s'.asked, x) {
        AnswersAreReturned(ask, peers, x);
        ReturnedAppend(ask, s.asked, IdSeq(peers), x);
      }
    }
  }

  lemma SearchHears(l: Lookup, ask: Ask, seeds: seq<NodeInfo>, n: nat)
    ensures HeardIsReturned(ask, Rounds(l, ask, Start(l, seeds), n))
  {
    var inv := (x: Search) => HeardIsReturned(ask, x);
    var step := RoundOf(l, ask);
    forall x | inv(x) ensures inv(step(x).0) {
      assert step(x) == Round(l, ask, x);
      RoundKeepsHeard(l, ask, x);
    }
    InvariantOfIteration(step, inv, Start(l, seeds), n);
  }

  lemma KnownIsKnown(l: Lookup, ask: Ask, seeds: seq<NodeInfo>, s: Search, id: NodeId)
    requires HeardIsReturned(ask, s)
    ensures id in Known(l, seeds, s) <==> IsKnown(l, ask, seeds, s.asked, id)
  {
    if id in IdSet(seeds) {
      var x :| x in seeds && x.id == id;
      HasIdOfMember(seeds, x);
    }
    if HasId(seeds, id) { assert seeds[IndexOf(seeds, id)] in seeds; }
    if id in IdSet(s.heard) {
      var x :| x in s.heard && x.id == id;
      assert Returned(ask, s.asked, x);
    }
  }

  // ----- when a search ends

  /** The merge lets this node in while the candidates are `c`. */
  ghost predicate Admits(l: Lookup, c: seq<NodeInfo>, x: NodeInfo) {
    && x.id != l.self && !HasId(c, x.id)
    && (l.policy.TakeAll? || |c| < l.k || (c != [] && Rank(l.target, x.id) < Rank(l.target, c[|c| - 1].id)))
  }

  /** One of the peers asked from here returns a node that is let in. */
  ghost predicate GoesOn(l: Lookup, ask: Ask, s: Search) {
    exists x :: Returned(ask, IdSeq(ToQuery(s.closest, s.queried, l.alpha)), x) && Admits(l, s.closest, x)
  }

  lemma {:induction false} OfferAllGrowsIff(l: Lookup, c: seq<NodeInfo>, nodes: seq<NodeInfo>)
    ensures |OfferAll(l, c, nodes)| >= |c| && (|OfferAll(l, c, nodes)| == |c| ==> OfferAll(l, c, nodes) == c)
    ensures |OfferAll(l, c, nodes)| > |c| <==> exists x :: x in nodes && Admits(l, c, x)
  {
    if nodes != [] {
      var front, last := nodes[..|nodes| - 1], nodes[|nodes| - 1];
      OfferAllGrowsIff(l, c, front);
      assert forall x :: x in nodes <==> x in front || x == last;
      if OfferAll(l, c, front) == c {
        assert |Offer(l, c, last)| > |c| <==> Admits(l, c, last);
      } else {
        var x :| x in front && Admits(l, c, x);
        assert x in nodes;
      }
    }
  }

  /** A round is followed by another one exactly when it let somebody in. */
  lemma RoundGoesOnIff(l: Lookup, ask: Ask, s: Search)
    ensures Round(l, ask, s).1 <==> GoesOn(l, ask, s)
  {
    var peers := ToQuery(s.closest, s.queried, l.alpha);
    OfferAllGrowsIff(l, s.closest, Answers(ask, peers));
    forall x ensures x in Answers(ask, peers) <==> Returned(ask, IdSeq(peers), x) {
      AnswersAreReturned(ask, peers, x);
    }
  }

  /** Some candidate is unasked and has an address, and asking is allowed at all. */
  ghost predicate AsksFrom(l: Lookup, s: Search) {
    l.alpha > 0 && exists x :: x in s.closest && x.id !in s.queried && x.addresses != []
  }

  /** A round with nobody to ask changes nothing and is the last one. */
  lemma RoundAsksIff(l: Lookup, ask: Ask, s: Search)
    ensures AsksFrom(l, s) <==> |Round(l, ask, s).0.asked| > |s.asked|
    ensures !AsksFrom(l, s) ==> Round(l, ask, s).0 == s && !GoesOn(l, ask, s)
  {
    EligibleMembers(s.closest, s.queried);
    var group := Eligible(s.closest, s.queried);
    if group != [] { assert group[0] in group; }
    RoundGoesOnIff(l, ask, s);
  }

  /** The states from `s` to `r` under a step that says whether another one follows, `n` steps at most. */
  ghost predicate IsTrace(step: Step, path: seq<Search>, s: Search, n: nat, r: Search) {
    var m := |path| - 1;
    && 0 <= m <= n && path[0] == s && path[m] == r
    && (forall i :: 0 <= i < m ==> path[i + 1] == step(path[i]).0)
    && (forall i :: 0 <= i < m - 1 ==> step(path[i]).1)
    && (m == n || (m >= 1 && !step(path[m - 1]).1))
  }

  ghost function TraceOf(step: Step, s: Search, n: nat): seq<Search>
    decreases n
  {
    if n == 0 then [s]
    else
      var (s', more) := step(s);
      if more then [s] + TraceOf(step, s', n - 1) else [s, s']
  }

  lemma {:induction false} TraceIsTrace(step: Step, s: Search, n: nat)
    ensures IsTrace(step, TraceOf(step, s, n), s, n, Iterate(step, s, n))
    decreases n
  {
    if n > 0 && step(s).1 {
      var path := TraceOf(step, step(s).0, n - 1);
      TraceIsTrace(step, step(s).0, n - 1);
      var longer := [s] + path;
      assert forall i :: 0 < i < |longer| ==> longer[i] == path[i - 1];
    }
  }

  /**
   The states of a lookup from `s` to `r`: each round but the last lets somebody in, and unless `n` rounds were
   made the last one lets nobody in, for instance because there was nobody to ask.
   */
  ghost predicate IsSearch(l: Lookup, ask: Ask, path: seq<Search>, s: Search, n: nat, r: Search) {
    var m := |path| - 1;
    && 0 <= m <= n && path[0] == s && path[m] == r
    && (forall i :: 0 <= i < m ==> path[i + 1] == Round(l, ask, path[i]).0)
    && (forall i :: 0 <= i < m - 1 ==> GoesOn(l, ask, path[i]))
    && (m == n || (m >= 1 && !GoesOn(l, ask, path[m - 1])))
  }

  lemma TraceIsSearch(l: Lookup, ask: Ask, step: Step, path: seq<Search>, s: Search, n: nat, r: Search)
    requires forall x {:trigger step(x)} :: step(x) == Round(l, ask, x)
    requires IsTrace(step, path, s, n, r)
    ensures IsSearch(l, ask, path, s, n, r)
  {
    forall i | 0 <= i < |path| ensures step(path[i]).1 <==> GoesOn(l, ask, path[i]) {
      RoundGoesOnIff(l, ask, path[i]);
    }
  }

  lemma StepIsRound(l: Lookup, ask: Ask)
    ensures forall x {:trigger RoundOf(l, ask)(x)} :: RoundOf(l, ask)(x) == Round(l, ask, x)
  {
    forall x ensures RoundOf(l, ask)(x) == Round(l, ask, x) {
      assert Round(l, ask, x) == Round(l, ask, x);
    }
  }

  lemma RoundsEnd(l: Lookup, ask: Ask, step: Step, s: Search, n: nat)
    requires forall x {:trigger step(x)} :: step(x) == Round(l, ask, x)
    ensures IsSearch(l, ask, TraceOf(step, s, n), s, n, Iterate(step, s, n))
  {
    TraceIsTrace(step, s, n);
    TraceIsSearch(l, ask, step, TraceOf(step, s, n), s, n, Iterate(step, s, n));
  }

  /** When a lookup ends: after ten rounds, or after a round that lets nobody in; and not before. */
  lemma SearchEnds(l: Lookup, ask: Ask, seeds: seq<NodeInfo>)
    ensures exists path :: IsSearch(l, ask, path, Start(l, seeds), 10, Outcome(l, ask, seeds))
  {
    var step, s, n := RoundOf(l, ask), Start(l, seeds), MAX_ROUNDS;
    StepIsRound(l, ask);
    RoundsEnd(l, ask, step, s, n);
    assert IsSearch(l, ask, TraceOf(step, s, n), s, n, Outcome(l, ask, seeds));
  }

  // ----- the nearest result of either lookup

  /** The first candidate is the nearest of all ids known so far. */
  ghost predicate HeadIsNearest(l: Lookup, c: seq<NodeInfo>, known: set<NodeId>) {
    && (forall i :: 0 <= i < |c| ==> c[i].id in known)
    && (known != {} ==> c != [] && forall u :: u in known ==> Rank(l.target, c[0].id) <= Rank(l.target, u))
  }

  lemma SettleKeepsHead(l: Lookup, c: seq<NodeInfo>, nodes: seq<NodeInfo>, known: set<NodeId>)
    requires l.k >= 1 && GoodSeeds(l, c) && HeadIsNearest(l, c, known)
    ensures HeadIsNearest(l, Settle(l, c, nodes), known + (IdSet(nodes) - {l.self}))
  {
    var r, all := Settle(l, c, nodes), OfferAll(l, c, nodes);
    SettleKeepsGood(l, c, nodes);
    StrictIsDistinct(l.target, c);
    OfferAllGrows(l, c, nodes);
    forall i | 0 <= i < |r| ensures r[i].id in known + (IdSet(nodes) - {l.self}) {
      assert r[i] in r;
    }
    forall u | u in known + (IdSet(nodes) - {l.self})
      ensures r != [] && Rank(l.target, r[0].id) <= Rank(l.target, u)
    {
      if u in known {
        assert c[0] == all[0] && all[0] in all;
        HeadBelow(l, all, c[0]);
      } else {
        var x :| x in nodes && x.id == u;
        OfferedIsMatched(l, c, nodes, x);
        var y :| y in all && Rank(l.target, y.id) <= Rank(l.target, x.id);
        HeadBelow(l, all, y);
      }
    }
  }

  lemma HeadBelow(l: Lookup, all: seq<NodeInfo>, y: NodeInfo)
    requires l.k >= 1 && y in all
    ensures FullSort(l.target, all, l.k) != []
    ensures Rank(l.target, FullSort(l.target, all, l.k)[0].id) <= Rank(l.target, y.id)
  {
    SortSorts(l.target, all);
    var s := SortByDistance(l.target, all);
    var i :| 0 <= i < |s| && s[i] == y;
  }

  lemma IdSetAppend(a: seq<NodeInfo>, b: seq<NodeInfo>)
    ensures IdSet(a + b) == IdSet(a) + IdSet(b)
  {
    forall id | id in IdSet(a) + IdSet(b) ensures id in IdSet(a + b) {
      if id in IdSet(a) {
        var x :| x in a && x.id == id;
        assert x in a + b;
      } else {
        var x :| x in b && x.id == id;
        assert x in a + b;
      }
    }
  }

  lemma KnownGrows(l: Lookup, ask: Ask, seeds: seq<NodeInfo>, s: Search)
    ensures var peers, (s', _) := ToQuery(s.closest, s.queried, l.alpha), Round(l, ask, s);
            peers != [] ==>
              Known(l, seeds, s') == Known(l, seeds, s) + (IdSet(Answers(ask, peers)) - {l.self})
  {
    IdSetAppend(s.heard, Answers(ask, ToQuery(s.closest, s.queried, l.alpha)));
  }

  lemma RoundKeepsHead(l: Lookup, ask: Ask, seeds: seq<NodeInfo>, s: Search)
    requires l.k >= 1 && GoodSeeds(l, s.closest)
    requires HeadIsNearest(l, s.closest, Known(l, seeds, s))
    ensures HeadIsNearest(l, Round(l, ask, s).0.closest, Known(l, seeds, Round(l, ask, s).0))
  {
    var peers := ToQuery(s.closest, s.queried, l.alpha);
    if peers != [] {
      SettleKeepsHead(l, s.closest, Answers(ask, peers), Known(l, seeds, s));
      KnownGrows(l, ask, seeds, s);
    }
  }

  lemma SearchKeepsHead(l: Lookup, ask: Ask, seeds: seq<NodeInfo>, s: Search, n: nat)
    requires l.k >= 1 && GoodSeeds(l, s.closest)
    requires HeadIsNearest(l, s.closest, Known(l, seeds, s))
    ensures var r := Rounds(l, ask, s, n); HeadIsNearest(l, r.closest, Known(l, seeds, r))
  {
    var inv := (x: Search) => GoodSeeds(l, x.closest) && HeadIsNearest(l, x.closest, Known(l, seeds, x));
    var step := RoundOf(l, ask);
    forall x | inv(x) ensures inv(step(x).0) {
      assert step(x) == Round(l, ask, x);
      RoundKeepsGood(l, ask, x);
      RoundKeepsHead(l, ask, seeds, x);
    }
    InvariantOfIteration(step, inv, s, n);
  }

  /** Candidates are seeds or returned nodes, contact data included. */
  ghost predicate CandidatesHeard(l: Lookup, seeds: seq<NodeInfo>, s: Search) {
    forall x :: x in s.closest ==> x in seeds || (x in s.heard && x.id != l.self)
  }

  lemma RoundKeepsCandidates(l: Lookup, ask: Ask, seeds: seq<NodeInfo>, s: Search)
    requires GoodSeeds(l, s.closest) && CandidatesHeard(l, seeds, s)
    ensures CandidatesHeard(l, seeds, Round(l, ask, s).0)
  {
    var peers := ToQuery(s.closest, s.queried, l.alpha);
    if peers != [] {
      var nodes := Answers(ask, peers);
      var all := OfferAll(l, s.closest, nodes);
      StrictIsDistinct(l.target, s.closest);
      OfferAllGrows(l, s.closest, nodes);
      SortSorts(l.target, all);
      forall x | x in Settle(l, s.closest, nodes) ensures x in all {
        assert x in SortByDistance(l.target, all);
      }
    }
  }

  lemma SearchKeepsCandidates(l: Lookup, ask: Ask, seeds: seq<NodeInfo>, n: nat)
    requires GoodSeeds(l, seeds)
    ensures CandidatesHeard(l, seeds, Rounds(l, ask, Start(l, seeds), n))
  {
    var inv := (x: Search) => GoodSeeds(l, x.closest) && CandidatesHeard(l, seeds, x);
    var step := RoundOf(l, ask);
    forall x | inv(x) ensures inv(step(x).0) {
      assert step(x) == Round(l, ask, x);
      RoundKeepsGood(l, ask, x);
      RoundKeepsCandidates(l, ask, seeds, x);
    }
    InvariantOfIteration(step, inv, Start(l, seeds), n);
  }

  /** Every candidate is a seed or a node that an asked peer returned, with the contact data it came with. */
  lemma CandidatesAreReturned(l: Lookup, ask: Ask, seeds: seq<NodeInfo>, n: nat)
    requires GoodSeeds(l, seeds)
    ensures var r := Rounds(l, ask, Start(l, seeds), n);
            forall x :: x in r.closest ==> x in seeds || (x.id != l.self && Returned(ask, r.asked, x))
  {
    SearchKeepsCandidates(l, ask, seeds, n);
    SearchHears(l, ask, seeds, n);
  }

  /**
   Whatever the peers answer, the first result of either lookup is the nearest among the seeds and every node
   ever returned, although `iterative_find_node` compares newcomers with the last candidate only.
   */
  lemma FirstResultIsNearest(l: Lookup, ask: Ask, seeds: seq<NodeInfo>, n: nat)
    requires l.k >= 1 && GoodSeeds(l, seeds)
    ensures var r := Rounds(l, ask, Start(l, seeds), n);
            && (forall i :: 0 <= i < |r.closest| ==> IsKnown(l, ask, seeds, r.asked, r.closest[i].id))
            && (forall u :: IsKnown(l, ask, seeds, r.asked, u) ==>
                  r.closest != [] && Rank(l.target, r.closest[0].id) <= Rank(l.target, u))
  {
    forall i | 0 <= i < |seeds| ensures seeds[i].id in IdSet(seeds) { assert seeds[i] in seeds; }
    forall u | u in IdSet(seeds) ensures seeds != [] && Rank(l.target, seeds[0].id) <= Rank(l.target, u) {
      var x :| x in seeds && x.id == u;
      var i :| 0 <= i < |seeds| && seeds[i] == x;
    }
    var r := Rounds(l, ask, Start(l, seeds), n);
    SearchKeepsHead(l, ask, seeds, Start(l, seeds), n);
    SearchHears(l, ask, seeds, n);
    forall u ensures u in Known(l, seeds, r) <==> IsKnown(l, ask, seeds, r.asked, u) {
      KnownIsKnown(l, ask, seeds, r, u);
    }
  }

  // ----- the lookup that takes everything is exact

  /** The candidates are the `k` nearest of the known ids: `k` of them, or all, and any other is farther. */
  ghost predicate AreNearestIds(l: Lookup, c: seq<NodeInfo>, known: set<NodeId>) {
    && (forall i :: 0 <= i < |c| ==> c[i].id in known)
    && (|c| == l.k || forall u :: u in known ==> HasId(c, u))
    && (forall u, i :: u in known && !HasId(c, u) && 0 <= i < |c| ==> Rank(l.target, c[i].id) < Rank(l.target, u))
  }

  /** The `k` nearest of the `k` nearest of A together with B are the `k` nearest of A and B. */
  lemma SettleKeepsExact(l: Lookup, c: seq<NodeInfo>, nodes: seq<NodeInfo>, known: set<NodeId>)
    requires l.policy.TakeAll? && GoodSeeds(l, c) && AreNearestIds(l, c, known)
    ensures AreNearestIds(l, Settle(l, c, nodes), known + (IdSet(nodes) - {l.self}))
  {
    var r := Settle(l, c, nodes);
    SettledAreKnown(l, c, nodes, known);
    forall u | u in known + (IdSet(nodes) - {l.self}) && !HasId(r, u)
      ensures |r| == l.k && forall i :: 0 <= i < |r| ==> Rank(l.target, r[i].id) < Rank(l.target, u)
    {
      UnsettledIsFarther(l, c, nodes, known, u);
    }
  }

  lemma SettledAreKnown(l: Lookup, c: seq<NodeInfo>, nodes: seq<NodeInfo>, known: set<NodeId>)
    requires GoodSeeds(l, c) && forall i :: 0 <= i < |c| ==> c[i].id in known
    ensures forall i :: 0 <= i < |Settle(l, c, nodes)| ==>
              Settle(l, c, nodes)[i].id in known + (IdSet(nodes) - {l.self})
  {
    var r, all := Settle(l, c, nodes), OfferAll(l, c, nodes);
    StrictIsDistinct(l.target, c);
    OfferAllGrows(l, c, nodes);
    SortSorts(l.target, all);
    forall i | 0 <= i < |r| ensures r[i].id in known + (IdSet(nodes) - {l.self}) {
      assert r[i] in SortByDistance(l.target, all);
    }
  }

  lemma UnsettledIsFarther(l: Lookup, c: seq<NodeInfo>, nodes: seq<NodeInfo>, known: set<NodeId>, u: NodeId)
    requires l.policy.TakeAll? && GoodSeeds(l, c) && AreNearestIds(l, c, known)
    requires u in known + (IdSet(nodes) - {l.self}) && !HasId(Settle(l, c, nodes), u)
    ensures var r := Settle(l, c, nodes);
            |r| == l.k && forall i :: 0 <= i < |r| ==> Rank(l.target, r[i].id) < Rank(l.target, u)
  {
    if HasId(OfferAll(l, c, nodes), u) {
      StrictIsDistinct(l.target, c);
      OfferAllGrows(l, c, nodes);
      LeftOutIsFarther(l, OfferAll(l, c, nodes), u);
    } else {
      UntakenIsFarther(l, c, nodes, known, u);
    }
  }

  /** A known id that is not even merged was left out before. */
  lemma UntakenIsFarther(l: Lookup, c: seq<NodeInfo>, nodes: seq<NodeInfo>, known: set<NodeId>, u: NodeId)
    requires l.policy.TakeAll? && GoodSeeds(l, c) && AreNearestIds(l, c, known)
    requires u in known + (IdSet(nodes) - {l.self}) && !HasId(OfferAll(l, c, nodes), u)
    ensures var r := Settle(l, c, nodes);
            |r| == l.k && forall i :: 0 <= i < |r| ==> Rank(l.target, r[i].id) < Rank(l.target, u)
  {
    var all := OfferAll(l, c, nodes);
    SettleNeverWorse(l, c, nodes);
    StrictIsDistinct(l.target, c);
    OfferAllGrows(l, c, nodes);
    forall i | 0 <= i < |c| ensures c[i].id != u { assert all[i] == c[i]; }
    if u !in known {
      var x :| x in nodes && x.id == u;
      OfferedIsMatched(l, c, nodes, x);
    }
    assert |c| == l.k;
  }

  lemma LeftOutIsFarther(l: Lookup, all: seq<NodeInfo>, u: NodeId)
    requires Distinct(all) && HasId(all, u) && !HasId(FullSort(l.target, all, l.k), u)
    ensures var r := FullSort(l.target, all, l.k);
            |r| == l.k && forall i :: 0 <= i < |r| ==> Rank(l.target, r[i].id) < Rank(l.target, u)
  {
    var r := FullSort(l.target, all, l.k);
    FullSortIsNearest(l.target, all, l.k);
    FullSortDistinct(l.target, all, l.k);
    var x := all[IndexOf(all, u)];
    assert x in all;
    if x in r { HasIdOfMember(r, x); }
    if |r| != l.k { NothingBeyondFound(all, r, x); }
  }

  lemma RoundKeepsExact(l: Lookup, ask: Ask, seeds: seq<NodeInfo>, s: Search)
    requires l.policy.TakeAll? && GoodSeeds(l, s.closest)
    requires AreNearestIds(l, s.closest, Known(l, seeds, s))
    ensures AreNearestIds(l, Round(l, ask, s).0.closest, Known(l, seeds, Round(l, ask, s).0))
  {
    var peers := ToQuery(s.closest, s.queried, l.alpha);
    if peers != [] {
      SettleKeepsExact(l, s.closest, Answers(ask, peers), Known(l, seeds, s));
      KnownGrows(l, ask, seeds, s);
    }
  }

  lemma SearchKeepsExact(l: Lookup, ask: Ask, seeds: seq<NodeInfo>, s: Search, n: nat)
    requires l.policy.TakeAll? && GoodSeeds(l, s.closest)
    requires AreNearestIds(l, s.closest, Known(l, seeds, s))
    ensures var r := Rounds(l, ask, s, n); AreNearestIds(l, r.closest, Known(l, seeds, r))
  {
    var inv := (x: Search) => GoodSeeds(l, x.closest) && AreNearestIds(l, x.closest, Known(l, seeds, x));
    var step := RoundOf(l, ask);
    forall x | inv(x) ensures inv(step(x).0) {
      assert step(x) == Round(l, ask, x);
      RoundKeepsGood(l, ask, x);
      RoundKeepsExact(l, ask, seeds, x);
    }
    InvariantOfIteration(step, inv, s, n);
  }

  /** `c` holds the `k` nearest of the known ids: `k` of them, or all, and any other is farther. */
  ghost predicate AreNearestKnown(l: Lookup, ask: Ask, seeds: seq<NodeInfo>, asked: seq<NodeId>, c: seq<NodeInfo>) {
    && (forall i :: 0 <= i < |c| ==> IsKnown(l, ask, seeds, asked, c[i].id))
    && (|c| == l.k || forall u :: IsKnown(l, ask, seeds, asked, u) ==> HasId(c, u))
    && (forall u, i :: IsKnown(l, ask, seeds, asked, u) && !HasId(c, u) && 0 <= i < |c|
          ==> Rank(l.target, c[i].id) < Rank(l.target, u))
  }

  /**
   After any number of rounds the candidates of `do_get_providers` are exactly the `k` nearest ids among the
   seeds and all closer nodes returned so far.
   */
  lemma ProviderSearchIsExact(l: Lookup, ask: Ask, seeds: seq<NodeInfo>, n: nat)
    requires l.policy.TakeAll? && GoodSeeds(l, seeds)
    ensures var r := Rounds(l, ask, Start(l, seeds), n); AreNearestKnown(l, ask, seeds, r.asked, r.closest)
  {
    forall i | 0 <= i < |seeds| ensures seeds[i].id in IdSet(seeds) { assert seeds[i] in seeds; }
    forall u | u in IdSet(seeds) ensures HasId(seeds, u) {
      var x :| x in seeds && x.id == u;
      HasIdOfMember(seeds, x);
    }
    var r := Rounds(l, ask, Start(l, seeds), n);
    SearchKeepsExact(l, ask, seeds, Start(l, seeds), n);
    SearchHears(l, ask, seeds, n);
    forall u ensures u in Known(l, seeds, r) <==> IsKnown(l, ask, seeds, r.asked, u) {
      KnownIsKnown(l, ask, seeds, r, u);
    }
  }
}
