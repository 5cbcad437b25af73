/**
 * A worked run of `RouteFindingBestFirst.bestFirstSearch` on a three-town
 * map, in which the printed cost is not the cost of the printed route.
 */
module RouteDetour {
  import opened Paths
  import opened RouteGraph
  import opened RouteSearch
  import opened RouteBestFirst

  /** Three towns: S to G costs 100, S to A 1 and A to G 1, with h 10 at S,
      1 at A and 5 at G; S's edges were added G first. */
  const Detour: Graph := Graph(
    map["S" := 10, "A" := 1, "G" := 5],
    map["S" := ["G", "A"], "A" := ["S", "G"], "G" := ["S", "A"]],
    map[("S", "G") := 100, ("G", "S") := 100, ("S", "A") := 1, ("A", "S") := 1, ("A", "G") := 1, ("G", "A") := 1])

  /** The queue and parents after expanding S. */
  const AfterS: Greedy := Greedy(multiset{Entry("G", 100, 5), Entry("A", 1, 1)}, map["G" := "S", "A" := "S"])

  /** The queue and parents after polling A and expanding it. */
  const AfterA: Greedy := Greedy(multiset{Entry("G", 100, 5), Entry("G", 2, 5)}, map["G" := "A", "A" := "S"])

  /** The printed cost need not be the printed route's cost. Expanding S
      queues G with g 100 and A with g 1; A has the least key, and
      expanding it queues G again with g 2 and makes A the parent of G.
      Both G entries now have the least key, and the Java heap returns the
      first one pushed (a sift-up moves an entry only past a strictly
      larger key). The walk back from G is S, A, G, which costs 2, while
      the printed cost is that entry's g, 100. */
  lemma CostMismatch()
    ensures PushAll(Detour, Greedy(multiset{}, map[]), {"S"}, "S", 0, Detour.adj["S"]) == AfterS
    ensures Least(AfterS.pq, Entry("A", 1, 1))
    ensures PushAll(Detour, AfterS.(pq := AfterS.pq - multiset{Entry("A", 1, 1)}), {"S", "A"}, "A", 1, Detour.adj["A"]) == AfterA
    ensures Least(AfterA.pq, Entry("G", 100, 5)) && Least(AfterA.pq, Entry("G", 2, 5))
    ensures Linked(AfterA.parent, ["S", "A", "G"]) && RouteCost(Detour, ["S", "A", "G"]) == 2
  {
    DetourFromS();
    DetourFromA();
    DetourPolls();
    DetourWalk();
  }

  /** Expanding S in the Detour map. */
  lemma DetourFromS()
    ensures PushAll(Detour, Greedy(multiset{}, map[]), {"S"}, "S", 0, Detour.adj["S"]) == AfterS
  {
    var v: set<Name> := {"S"};
    var q0 := Greedy(multiset{}, map[]);
    var qg := Greedy(multiset{Entry("G", 100, 5)}, map["G" := "S"]);
    assert Detour.adj["S"] == ["G", "A"];
    assert Cost(Detour, "S", "G") == 100 && Cost(Detour, "S", "A") == 1;
    assert Detour.h["G"] == 5 && Detour.h["A"] == 1;
    DetourSPushes();
    assert PushAll(Detour, qg, v, "S", 0, ["A"]) == AfterS by {
      assert PushAll(Detour, AfterS, v, "S", 0, []) == AfterS;
    }
    assert ["G", "A"][1..] == ["A"];
  }

  /** The two pushes of S's neighbours, G and then A. */
  lemma DetourSPushes()
    ensures Greedy(multiset{}, map[]).parent["G" := "S"] == map["G" := "S"]
    ensures multiset{} + multiset{Entry("G", 100, 5)} == multiset{Entry("G", 100, 5)}
    ensures multiset{Entry("G", 100, 5)} + multiset{Entry("A", 1, 1)} == AfterS.pq
    ensures map["G" := "S"]["A" := "S"] == AfterS.parent
  {
  }

  /** Expanding A next, after its entry is polled. */
  lemma DetourFromA()
    ensures PushAll(Detour, AfterS.(pq := AfterS.pq - multiset{Entry("A", 1, 1)}), {"S", "A"}, "A", 1, Detour.adj["A"]) == AfterA
  {
    var v: set<Name> := {"S", "A"};
    var q1 := Greedy(multiset{Entry("G", 100, 5)}, map["G" := "S", "A" := "S"]);
    DetourPollA();
    assert Detour.adj["A"] == ["S", "G"];
    assert Cost(Detour, "A", "G") == 1 && Detour.h["G"] == 5;
    DetourAPushes();
    assert PushAll(Detour, q1, v, "A", 1, ["G"]) == AfterA by {
      assert PushAll(Detour, AfterA, v, "A", 1, []) == AfterA;
    }
    assert ["S", "G"][1..] == ["G"];
  }

  /** Polling A leaves G's entry and both parents. */
  lemma DetourPollA()
    ensures AfterS.(pq := AfterS.pq - multiset{Entry("A", 1, 1)}) == Greedy(multiset{Entry("G", 100, 5)}, map["G" := "S", "A" := "S"])
  {
  }

  /** A's push of G adds the second entry for G and makes A its parent. */
  lemma DetourAPushes()
    ensures multiset{Entry("G", 100, 5)} + multiset{Entry("G", 2, 5)} == AfterA.pq
    ensures map["G" := "S", "A" := "S"]["G" := "A"] == AfterA.parent
  {
  }

  /** Which entries each poll may return. */
  lemma DetourPolls()
    ensures Least(AfterS.pq, Entry("A", 1, 1))
    ensures Least(AfterA.pq, Entry("G", 100, 5)) && Least(AfterA.pq, Entry("G", 2, 5))
  {
  }

  /** The parent walk from G and its cost. */
  lemma DetourWalk()
    ensures Linked(AfterA.parent, ["S", "A", "G"]) && RouteCost(Detour, ["S", "A", "G"]) == 2
  {
    assert RouteCost(Detour, ["S", "A"]) == 1;
  }
}
