/**
 * Paths in a successor graph and the parent maps every search records.
 * The Java programs rebuild a solution by walking `parent` from the goal
 * back to the start and reversing the list; `ParentWalk` is that walk.
 */
module Paths {
  import opened Seqs

  /** Each state of `p` is one of the successors of the state before it. */
  predicate IsPath<S(==)>(succ: S -> seq<S>, p: seq<S>)
  {
    forall i :: 0 < i < |p| ==> p[i] in succ(p[i - 1])
  }

  /** `universe` holds every successor of its members. */
  ghost predicate Closed<S>(succ: S -> seq<S>, universe: set<S>)
  {
    forall s, t :: s in universe && t in succ(s) ==> t in universe
  }

  /** A path from `start`. */
  predicate PathFrom<S(==)>(succ: S -> seq<S>, start: S, p: seq<S>)
  {
    |p| > 0 && p[0] == start && IsPath(succ, p)
  }

  /** Every non-empty prefix of a path is a path. */
  lemma PathPrefix<S>(succ: S -> seq<S>, p: seq<S>, k: nat)
    requires IsPath(succ, p) && 0 < k <= |p|
    ensures IsPath(succ, p[..k])
  {
    forall i | 0 < i < k
      ensures p[..k][i] in succ(p[..k][i - 1])
    {
      assert p[i] in succ(p[i - 1]);
    }
  }

  /** A path extended by a successor of its last state is a path. */
  lemma PathSnoc<S>(succ: S -> seq<S>, start: S, p: seq<S>, y: S)
    requires PathFrom(succ, start, p) && y in succ(Last(p))
    ensures PathFrom(succ, start, p + [y]) && Last(p + [y]) == y
  {
    var q := p + [y];
    forall i | 0 < i < |q|
      ensures q[i] in succ(q[i - 1])
    {
      if i < |p| {
        assert q[i] == p[i] && q[i - 1] == p[i - 1];
      }
    }
  }

  /** A path from a state of a successor-closed set stays in that set. */
  lemma ClosedReach<S>(succ: S -> seq<S>, start: S, p: seq<S>, done: set<S>)
    requires PathFrom(succ, start, p) && start in done
    requires forall u, w :: u in done && w in succ(u) ==> w in done
    ensures forall i :: 0 <= i < |p| ==> p[i] in done
  {
    var j := 0;
    while j < |p|
      invariant 0 <= j <= |p|
      invariant forall i :: 0 <= i < j ==> p[i] in done
    {
      if j > 0 {
        assert p[j] in succ(p[j - 1]);
      }
      j := j + 1;
    }
  }

  /** `p` is the chain of parent links ending in its last state: its first
      state has no parent and every other state's parent is its predecessor. */
  predicate Linked<S(==)>(parent: map<S, S>, p: seq<S>)
  {
    && |p| > 0
    && p[0] !in parent
    && forall i :: 0 < i < |p| ==> p[i] in parent && parent[p[i]] == p[i - 1]
  }

  /** Following parent links strictly decreases (rank, tie) lexicographically,
      so the walk back from any state terminates. */
  ghost predicate Ranked<S>(parent: map<S, S>, rank: map<S, nat>, tie: map<S, nat>)
  {
    forall x :: x in parent ==>
      && x in rank && x in tie && parent[x] in rank && parent[x] in tie
      && (rank[parent[x]] < rank[x] || (rank[parent[x]] == rank[x] && tie[parent[x]] < tie[x]))
  }

  /** At most one parent chain ends in a given state. */
  lemma {:induction false} LinkedUnique<S>(parent: map<S, S>, p: seq<S>, q: seq<S>)
    requires Linked(parent, p) && Linked(parent, q) && Last(p) == Last(q)
    ensures p == q
    decreases |p|
  {
    if |p| > 1 && |q| > 1 {
      var p', q' := p[..|p| - 1], q[..|q| - 1];
      assert Linked(parent, p');
      assert Linked(parent, q');
      LinkedUnique(parent, p', q');
      assert p == p' + [Last(p)] && q == q' + [Last(q)];
    }
  }

  /** A parent chain never repeats a state: each state has one parent, and
      the chain's first state has none. */
  lemma {:induction false} LinkedNoDup<S>(parent: map<S, S>, p: seq<S>)
    requires Linked(parent, p)
    ensures NoDup(p)
    decreases |p|
  {
    if |p| > 1 {
      var n := |p| - 1;
      var p' := p[..n];
      assert Linked(parent, p');
      LinkedNoDup(parent, p');
      forall i | 0 <= i < n
        ensures p[i] != p[n]
      {
        if i == 0 {
          assert p[0] !in parent && p[n] in parent;
        } else {
          assert parent[p[i]] == p'[i - 1] && parent[p[n]] == p'[n - 1];
        }
      }
    }
  }

  /** A parent chain follows successor edges when every recorded parent
      link is one. */
  lemma LinkedIsPath<S>(succ: S -> seq<S>, parent: map<S, S>, p: seq<S>)
    requires Linked(parent, p)
    requires forall x :: x in parent ==> x in succ(parent[x])
    ensures IsPath(succ, p)
  {
  }

  /** When each link adds one to a depth map, the chain's length is the
      depth difference between its ends plus one. */
  lemma {:induction false} LinkedDepth<S>(parent: map<S, S>, depth: map<S, nat>, p: seq<S>)
    requires Linked(parent, p) && p[0] in depth
    requires forall x :: x in parent ==> x in depth && parent[x] in depth && depth[x] == depth[parent[x]] + 1
    ensures Last(p) in depth && depth[Last(p)] == depth[p[0]] + |p| - 1
  {
    if |p| > 1 {
      var p' := p[..|p| - 1];
      assert Linked(parent, p');
      LinkedDepth(parent, depth, p');
    }
  }

  /** When each link strictly raises a rank map, the rank at the end of a
      chain exceeds the rank at its start by at least the number of links. */
  lemma {:induction false} LinkedRise<S>(parent: map<S, S>, rank: map<S, nat>, p: seq<S>)
    requires Linked(parent, p) && p[0] in rank
    requires forall x :: x in parent ==> x in rank && parent[x] in rank && rank[parent[x]] < rank[x]
    ensures Last(p) in rank && rank[Last(p)] >= rank[p[0]] + |p| - 1
  {
    if |p| > 1 {
      var p' := p[..|p| - 1];
      assert Linked(parent, p');
      LinkedRise(parent, rank, p');
    }
  }

  /** Walks parent links from `end` back to a state without a parent and
      returns the states in start-to-end order. */
  method ParentWalk<S(==)>(parent: map<S, S>, end: S, ghost rank: map<S, nat>, ghost tie: map<S, nat>)
    returns (path: seq<S>)
    requires end in rank && end in tie && Ranked(parent, rank, tie)
    ensures Linked(parent, path) && Last(path) == end
  {
    var cur := end;
    path := [end];
    while cur in parent
      invariant |path| > 0 && path[0] == cur && Last(path) == end
      invariant cur in rank && cur in tie
      invariant forall i :: 0 < i < |path| ==> path[i] in parent && parent[path[i]] == path[i - 1]
      decreases rank[cur], tie[cur]
    {
      cur := parent[cur];
      path := [cur] + path;
    }
  }
}
