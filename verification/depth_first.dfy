/**
 * The recursive depth-first search shared by every DFS and depth-limited
 * program. One visited set and one parent map live for the whole run
 * (static fields in the Java programs), so they are threaded through the
 * calls and returned. A call first applies the depth cutoff (depth-limited
 * variants only), then tests the goal, then marks its state visited, and
 * then tries the successors in order: a successor still unvisited at its
 * turn gets the current state as parent and is searched one level deeper;
 * the first success ends the whole search.
 */
module DepthFirst {
  import opened Wrappers
  import opened Seqs
  import opened Paths

  /** What a call leaves behind: whether it reached a goal, the chain of
      calls from its own state down to that goal (the Java call stack at the
      moment of success), and the shared visited set and parent map. */
  datatype Run<S> = Run(found: bool, trail: seq<S>, visited: set<S>, parent: map<S, S>)

  /** The depth cutoff: `None` is plain DFS, `Some(k)` stops above depth k. */
  predicate Within(limit: Option<nat>, depth: nat)
  {
    limit.None? || depth <= limit.value
  }

  /** The parent map only ever records successor edges. */
  ghost predicate EdgesOf<S>(succ: S -> seq<S>, parent: map<S, S>)
  {
    forall x :: x in parent ==> x in succ(parent[x])
  }

  /** Visited states keep their parent entry, or their lack of one. */
  ghost predicate Keeps<S>(visited: set<S>, parent: map<S, S>, parent': map<S, S>)
  {
    forall x :: x in visited ==> (x in parent' <==> x in parent) && (x in parent ==> parent'[x] == parent[x])
  }

  /** A found trail leads from `cur` to a goal along successor edges and
      parent links, within the depth limit when there is one. */
  ghost predicate Sound<S>(succ: S -> seq<S>, isGoal: S -> bool, limit: Option<nat>, cur: S, depth: nat, r: Run<S>)
  {
    && |r.trail| > 0 && r.trail[0] == cur && isGoal(Last(r.trail)) && IsPath(succ, r.trail)
    && (forall i :: 0 < i < |r.trail| ==> r.trail[i] in r.parent && r.parent[r.trail[i]] == r.trail[i - 1])
    && (limit.Some? ==> depth + |r.trail| - 1 <= limit.value)
  }

  /** Without a cutoff, a failed call leaves every state it marked expanded:
      not a goal, with all its successors visited. */
  ghost predicate Exhaustive<S>(succ: S -> seq<S>, isGoal: S -> bool, visited: set<S>, r: Run<S>)
  {
    forall x :: x in r.visited - visited ==> !isGoal(x) && forall w :: w in succ(x) ==> w in r.visited
  }

  lemma Remaining<S>(universe: set<S>, visited: set<S>, cur: S)
    requires cur in universe && cur !in visited
    ensures |universe - (visited + {cur})| < |universe - visited|
  {
    assert universe - visited == (universe - (visited + {cur})) + {cur};
  }

  /** One call on `cur`, not yet visited, at depth `depth`. */
  function Visit<S(==)>(succ: S -> seq<S>, isGoal: S -> bool, limit: Option<nat>, cur: S, depth: nat,
                        visited: set<S>, parent: map<S, S>, ghost universe: set<S>): (r: Run<S>)
    requires Closed(succ, universe) && cur in universe && visited <= universe && cur !in visited
    ensures visited <= r.visited <= universe
    ensures !Within(limit, depth) ==> r == Run(false, [], visited, parent)
    ensures Within(limit, depth) && isGoal(cur) ==> r == Run(true, [cur], visited, parent)
    ensures Within(limit, depth) && !isGoal(cur) ==> cur in r.visited
    decreases |universe - visited|, 0
  {
    if !Within(limit, depth) then Run(false, [], visited, parent)
    else if isGoal(cur) then Run(true, [cur], visited, parent)
    else
      Remaining(universe, visited, cur);
      var r := Explore(succ, isGoal, limit, cur, succ(cur), depth, visited + {cur}, parent, universe);
      if r.found then r.(trail := [cur] + r.trail) else r
  }

  /** The loop over the successors `nexts` of `cur`, which is visited. */
  function Explore<S(==)>(succ: S -> seq<S>, isGoal: S -> bool, limit: Option<nat>, cur: S, nexts: seq<S>,
                          depth: nat, visited: set<S>, parent: map<S, S>, ghost universe: set<S>): (r: Run<S>)
    requires Closed(succ, universe) && visited <= universe && cur in visited
    requires forall w :: w in nexts ==> w in universe
    ensures visited <= r.visited <= universe
    decreases |universe - visited|, 1, |nexts|
  {
    if nexts == [] then Run(false, [], visited, parent)
    else if nexts[0] in visited then
      Explore(succ, isGoal, limit, cur, nexts[1..], depth, visited, parent, universe)
    else
      var s := nexts[0];
      var r := Visit(succ, isGoal, limit, s, depth + 1, visited, parent[s := cur], universe);
      if r.found then r
      else
        RemainingMono(universe, visited, r.visited);
        Explore(succ, isGoal, limit, cur, nexts[1..], depth, r.visited, r.parent, universe)
  }

  /** A call never changes the parent entry of a state visited before it,
      and records only successor edges. */
  lemma {:induction false} VisitFrame<S>(succ: S -> seq<S>, isGoal: S -> bool, limit: Option<nat>, cur: S, depth: nat,
                                         visited: set<S>, parent: map<S, S>, universe: set<S>)
    requires Closed(succ, universe) && cur in universe && visited <= universe && cur !in visited
    ensures var r := Visit(succ, isGoal, limit, cur, depth, visited, parent, universe);
      && Keeps(visited, parent, r.parent)
      && (cur in r.parent <==> cur in parent) && (cur in parent ==> r.parent[cur] == parent[cur])
      && (EdgesOf(succ, parent) ==> EdgesOf(succ, r.parent))
    decreases |universe - visited|, 0
  {
    if Within(limit, depth) && !isGoal(cur) {
      Remaining(universe, visited, cur);
      ExploreFrame(succ, isGoal, limit, cur, succ(cur), depth, visited + {cur}, parent, universe);
    }
  }

  lemma {:induction false} ExploreFrame<S>(succ: S -> seq<S>, isGoal: S -> bool, limit: Option<nat>, cur: S,
                                           nexts: seq<S>, depth: nat, visited: set<S>, parent: map<S, S>,
                                           universe: set<S>)
    requires Closed(succ, universe) && visited <= universe && cur in visited
    requires forall w :: w in nexts ==> w in universe && w in succ(cur)
    ensures var r := Explore(succ, isGoal, limit, cur, nexts, depth, visited, parent, universe);
      && Keeps(visited, parent, r.parent)
      && (EdgesOf(succ, parent) ==> EdgesOf(succ, r.parent))
    decreases |universe - visited|, 1, |nexts|
  {
    if nexts != [] {
      if nexts[0] in visited {
        ExploreFrame(succ, isGoal, limit, cur, nexts[1..], depth, visited, parent, universe);
      } else {
        var s := nexts[0];
        VisitFrame(succ, isGoal, limit, s, depth + 1, visited, parent[s := cur], universe);
        var r := Visit(succ, isGoal, limit, s, depth + 1, visited, parent[s := cur], universe);
        if !r.found {
          RemainingMono(universe, visited, r.visited);
          ExploreFrame(succ, isGoal, limit, cur, nexts[1..], depth, r.visited, r.parent, universe);
        }
      }
    }
  }

  /** Prepending the caller to a trail found one level deeper. */
  lemma SoundCons<S>(succ: S -> seq<S>, isGoal: S -> bool, limit: Option<nat>, cur: S, depth: nat, r: Run<S>)
    requires |r.trail| > 0 && r.trail[0] in succ(cur) && r.trail[0] in r.parent && r.parent[r.trail[0]] == cur
    requires Sound(succ, isGoal, limit, r.trail[0], depth + 1, r)
    ensures Sound(succ, isGoal, limit, cur, depth, r.(trail := [cur] + r.trail))
  {
    var t := [cur] + r.trail;
    forall i | 0 < i < |t|
      ensures t[i] in succ(t[i - 1]) && t[i] in r.parent && r.parent[t[i]] == t[i - 1]
    {
      if i > 1 {
        assert t[i] == r.trail[i - 1] && t[i - 1] == r.trail[i - 2];
      }
    }
    assert Last(t) == Last(r.trail);
  }

  /** A successful call's trail leads from its state to a goal along
      successor edges and along the final parent links, within the limit. */
  lemma {:induction false} VisitSound<S>(succ: S -> seq<S>, isGoal: S -> bool, limit: Option<nat>, cur: S, depth: nat,
                                         visited: set<S>, parent: map<S, S>, universe: set<S>)
    requires Closed(succ, universe) && cur in universe && visited <= universe && cur !in visited
    ensures var r := Visit(succ, isGoal, limit, cur, depth, visited, parent, universe);
      r.found ==> Sound(succ, isGoal, limit, cur, depth, r)
    decreases |universe - visited|, 0
  {
    if Within(limit, depth) && !isGoal(cur) {
      Remaining(universe, visited, cur);
      ExploreSound(succ, isGoal, limit, cur, succ(cur), depth, visited + {cur}, parent, universe);
      var r := Explore(succ, isGoal, limit, cur, succ(cur), depth, visited + {cur}, parent, universe);
      if r.found {
        SoundCons(succ, isGoal, limit, cur, depth, r);
      }
    }
  }

  lemma {:induction false} ExploreSound<S>(succ: S -> seq<S>, isGoal: S -> bool, limit: Option<nat>, cur: S,
                                           nexts: seq<S>, depth: nat, visited: set<S>, parent: map<S, S>,
                                           universe: set<S>)
    requires Closed(succ, universe) && visited <= universe && cur in visited
    requires forall w :: w in nexts ==> w in universe && w in succ(cur)
    ensures var r := Explore(succ, isGoal, limit, cur, nexts, depth, visited, parent, universe);
      r.found ==> && |r.trail| > 0 && r.trail[0] in succ(cur) && r.trail[0] in r.parent
                  && r.parent[r.trail[0]] == cur && Sound(succ, isGoal, limit, r.trail[0], depth + 1, r)
    decreases |universe - visited|, 1, |nexts|
  {
    if nexts != [] {
      if nexts[0] in visited {
        ExploreSound(succ, isGoal, limit, cur, nexts[1..], depth, visited, parent, universe);
      } else {
        var s := nexts[0];
        VisitFrame(succ, isGoal, limit, s, depth + 1, visited, parent[s := cur], universe);
        VisitSound(succ, isGoal, limit, s, depth + 1, visited, parent[s := cur], universe);
        var r := Visit(succ, isGoal, limit, s, depth + 1, visited, parent[s := cur], universe);
        if !r.found {
          RemainingMono(universe, visited, r.visited);
          ExploreSound(succ, isGoal, limit, cur, nexts[1..], depth, r.visited, r.parent, universe);
        }
      }
    }
  }

  /** Without a cutoff, a failed call has expanded every state it marked,
      its own state included. */
  lemma {:induction false} VisitExhaustive<S>(succ: S -> seq<S>, isGoal: S -> bool, cur: S, depth: nat,
                                              visited: set<S>, parent: map<S, S>, universe: set<S>)
    requires Closed(succ, universe) && cur in universe && visited <= universe && cur !in visited
    ensures var r := Visit(succ, isGoal, None, cur, depth, visited, parent, universe);
      !r.found ==> cur in r.visited && Exhaustive(succ, isGoal, visited, r)
    decreases |universe - visited|, 0
  {
    if !isGoal(cur) {
      Remaining(universe, visited, cur);
      ExploreExhaustive(succ, isGoal, cur, succ(cur), depth, visited + {cur}, parent, universe);
    }
  }

  lemma {:induction false} ExploreExhaustive<S>(succ: S -> seq<S>, isGoal: S -> bool, cur: S,
                                                nexts: seq<S>, depth: nat, visited: set<S>, parent: map<S, S>,
                                                universe: set<S>)
    requires Closed(succ, universe) && visited <= universe && cur in visited
    requires forall w :: w in nexts ==> w in universe
    ensures var r := Explore(succ, isGoal, None, cur, nexts, depth, visited, parent, universe);
      !r.found ==> Exhaustive(succ, isGoal, visited, r) && forall w :: w in nexts ==> w in r.visited
    decreases |universe - visited|, 1, |nexts|
  {
    if nexts != [] {
      if nexts[0] in visited {
        ExploreExhaustive(succ, isGoal, cur, nexts[1..], depth, visited, parent, universe);
      } else {
        var s := nexts[0];
        VisitExhaustive(succ, isGoal, s, depth + 1, visited, parent[s := cur], universe);
        var r := Visit(succ, isGoal, None, s, depth + 1, visited, parent[s := cur], universe);
        if !r.found {
          RemainingMono(universe, visited, r.visited);
          ExploreExhaustive(succ, isGoal, cur, nexts[1..], depth, r.visited, r.parent, universe);
        }
      }
    }
  }

  /** Every path from `start` without a repeated state has at most `k`
      moves. */
  ghost predicate Shallow<S(!new)>(succ: S -> seq<S>, start: S, k: nat)
  {
    forall p :: PathFrom(succ, start, p) && NoDup(p) ==> |p| <= k + 1
  }

  /** With no more than `k + 1` states, every repeat-free path is short. */
  lemma FewStatesShallow<S(!new)>(succ: S -> seq<S>, start: S, k: nat, universe: set<S>)
    requires Closed(succ, universe) && start in universe && |universe| <= k + 1
    ensures Shallow(succ, start, k)
  {
    forall p | PathFrom(succ, start, p) && NoDup(p)
      ensures |p| <= k + 1
    {
      ClosedReach(succ, start, p, universe);
      NoDupCard(p);
      SubsetCard(Elems(p), universe);
    }
  }

  /** The calls in progress form a repeat-free path from the start to the
      current state (the Java call stack), whose states other than the
      current one are all visited; so a call's depth is the length of such
      a path, and on a shallow space the cutoff never fires: the limited run
      is the unlimited one. */
  lemma {:induction false} VisitInert<S(!new)>(succ: S -> seq<S>, isGoal: S -> bool, k: nat, start: S, cur: S,
                                         depth: nat, visited: set<S>, parent: map<S, S>, universe: set<S>,
                                         stack: seq<S>)
    requires Closed(succ, universe) && cur in universe && visited <= universe && cur !in visited
    requires PathFrom(succ, start, stack) && NoDup(stack) && Last(stack) == cur && |stack| == depth + 1
    requires forall x :: x in stack[..depth] ==> x in visited
    requires Shallow(succ, start, k)
    ensures Visit(succ, isGoal, Some(k), cur, depth, visited, parent, universe)
            == Visit(succ, isGoal, None, cur, depth, visited, parent, universe)
    decreases |universe - visited|, 0
  {
    assert stack == stack[..depth] + [cur];
    if !isGoal(cur) {
      Remaining(universe, visited, cur);
      ExploreInert(succ, isGoal, k, start, cur, succ(cur), depth, visited + {cur}, parent, universe, stack);
    }
  }

  lemma {:induction false} ExploreInert<S(!new)>(succ: S -> seq<S>, isGoal: S -> bool, k: nat, start: S, cur: S,
                                           nexts: seq<S>, depth: nat, visited: set<S>, parent: map<S, S>,
                                           universe: set<S>, stack: seq<S>)
    requires Closed(succ, universe) && visited <= universe && cur in visited
    requires forall w :: w in nexts ==> w in universe && w in succ(cur)
    requires PathFrom(succ, start, stack) && NoDup(stack) && Last(stack) == cur && |stack| == depth + 1
    requires forall x :: x in stack ==> x in visited
    requires Shallow(succ, start, k)
    ensures Explore(succ, isGoal, Some(k), cur, nexts, depth, visited, parent, universe)
            == Explore(succ, isGoal, None, cur, nexts, depth, visited, parent, universe)
    decreases |universe - visited|, 1, |nexts|
  {
    if nexts != [] {
      if nexts[0] in visited {
        ExploreInert(succ, isGoal, k, start, cur, nexts[1..], depth, visited, parent, universe, stack);
      } else {
        var s := nexts[0];
        var deeper := stack + [s];
        assert deeper[..depth + 1] == stack;
        assert NoDup(deeper) by {
          NoDupAppend(stack, [s]);
        }
        VisitInert(succ, isGoal, k, start, s, depth + 1, visited, parent[s := cur], universe, deeper);
        var r := Visit(succ, isGoal, None, s, depth + 1, visited, parent[s := cur], universe);
        if !r.found {
          RemainingMono(universe, visited, r.visited);
          ExploreInert(succ, isGoal, k, start, cur, nexts[1..], depth, r.visited, r.parent, universe, stack);
        }
      }
    }
  }

  /** Walks parent links from the end of a chain back to its first state,
      as the Java path printers do, and returns the chain in order. */
  method ChainWalk<S(==)>(parent: map<S, S>, end: S, ghost chain: seq<S>) returns (path: seq<S>)
    requires Linked(parent, chain) && Last(chain) == end
    ensures path == chain
  {
    var cur := end;
    path := [end];
    ghost var k := |chain| - 1;
    while cur in parent
      invariant 0 <= k < |chain| && cur == chain[k] && path == chain[k..]
      decreases k
    {
      cur := parent[cur];
      k := k - 1;
      path := [cur] + path;
    }
    assert k == 0;
  }

  /**
   * A whole run from `start` with nothing visited and no parent links,
   * followed by the parent walk from the goal. A found path starts at
   * `start`, follows successor edges, ends in a goal and respects the depth
   * limit; without a limit, a failed run proves no goal reachable.
   */
  method Search<S(==,!new)>(succ: S -> seq<S>, isGoal: S -> bool, limit: Option<nat>, start: S, ghost universe: set<S>)
    returns (path: Option<seq<S>>)
    requires Closed(succ, universe) && start in universe
    ensures path.Some? ==> PathFrom(succ, start, path.value) && isGoal(Last(path.value))
    ensures path.Some? && limit.Some? ==> |path.value| - 1 <= limit.value
    ensures path.None? && (limit.None? || Shallow(succ, start, limit.value)) ==>
              forall p :: PathFrom(succ, start, p) ==> !isGoal(Last(p))
    ensures isGoal(start) ==> path == Some([start])
  {
    var r := Visit(succ, isGoal, limit, start, 0, {}, map[], universe);
    VisitFrame(succ, isGoal, limit, start, 0, {}, map[], universe);
    VisitSound(succ, isGoal, limit, start, 0, {}, map[], universe);
    if r.found {
      var p := ChainWalk(r.parent, Last(r.trail), r.trail);
      path := Some(p);
    } else {
      path := None;
      if limit.Some? && Shallow(succ, start, limit.value) {
        VisitInert(succ, isGoal, limit.value, start, start, 0, {}, map[], universe, [start]);
      }
      if limit.None? || Shallow(succ, start, limit.value) {
        VisitExhaustive(succ, isGoal, start, 0, {}, map[], universe);
        forall p | PathFrom(succ, start, p)
          ensures !isGoal(Last(p))
        {
          assert forall u, w :: u in r.visited && w in succ(u) ==> w in r.visited;
          ClosedReach(succ, start, p, r.visited);
        }
      }
    }
  }
}
