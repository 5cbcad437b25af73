/**
 * The assign–recurse–undo solver shared by the constraint programs: slots
 * 0 to size - 1 are filled in order, each with the first candidate (in
 * list order) that the safety test admits and from which the rest can be
 * completed; a slot whose candidates all fail is reset to the blank value
 * and the call reports failure. A full assignment is reported only if the
 * final test accepts it.
 */
module Backtrack {

  /** One constraint program: the number of slots, the value of an empty
      slot, the candidates in the order they are tried, the safety test of
      placing a value in a slot given the array so far, and the test of a
      full array. */
  datatype Problem = Problem(
    size: nat,
    blank: int,
    cands: seq<int>,
    safe: (seq<int>, nat, int) -> bool,
    accept: seq<int> -> bool)

  /** `solve(pos)`: the flag it returns and the array it leaves behind. */
  function Solve(p: Problem, a: seq<int>, pos: nat): (r: (bool, seq<int>))
    requires |a| == p.size && pos <= p.size
    ensures |r.1| == p.size
    decreases p.size - pos, |p.cands| + 1
  {
    if pos == p.size then (p.accept(a), a) else TryFrom(p, a, pos, 0)
  }

  /** The candidate loop of `solve(pos)` from the `i`-th candidate on: a
      safe candidate is placed and the rest solved; on failure the slot is
      reset to blank and the next candidate tried. */
  function TryFrom(p: Problem, a: seq<int>, pos: nat, i: nat): (r: (bool, seq<int>))
    requires |a| == p.size && pos < p.size && i <= |p.cands|
    ensures |r.1| == p.size
    decreases p.size - pos, |p.cands| - i
  {
    if i == |p.cands| then (false, a)
    else
      var v := p.cands[i];
      if p.safe(a, pos, v) then
        var r := Solve(p, a[pos := v], pos + 1);
        if r.0 then r else TryFrom(p, r.1[pos := p.blank], pos, i + 1)
      else
        TryFrom(p, a, pos, i + 1)
  }

  /** Every slot from `pos` on is empty, as it is on entry to `solve(pos)`. */
  predicate Blank(p: Problem, a: seq<int>, pos: nat)
  {
    forall r :: pos <= r < |a| ==> a[r] == p.blank
  }

  /** The array the solver holds when it fills slot `r` on the way to `s`:
      the first `r` values of `s` and blanks after them. */
  function Stage(p: Problem, s: seq<int>, r: nat): (t: seq<int>)
    requires r <= |s|
    ensures |t| == |s| && t[..r] == s[..r] && Blank(p, t, r)
  {
    s[..r] + seq(|s| - r, _ => p.blank)
  }

  /** `s` completes the array `a` from slot `pos`: it keeps the first
      `pos` slots, every later slot holds a candidate that the safety test
      admitted when it was placed, and the final test accepts it. */
  predicate Solution(p: Problem, a: seq<int>, pos: nat, s: seq<int>)
    requires pos <= |a| == p.size
  {
    && |s| == p.size
    && s[..pos] == a[..pos]
    && (forall r :: pos <= r < p.size ==> s[r] in p.cands && p.safe(Stage(p, s, r), r, s[r]))
    && p.accept(s)
  }

  /** The candidates are tried in increasing order. */
  predicate Increasing(c: seq<int>)
  {
    forall i, j :: 0 <= i < j < |c| ==> c[i] < c[j]
  }

  /** `s` comes no later than `t` in lexicographic order. */
  predicate LexLe(s: seq<int>, t: seq<int>)
  {
    s == t || exists k :: 0 <= k < |s| && k < |t| && s[..k] == t[..k] && s[k] < t[k]
  }

  /** Filling slot `pos` with `v`: the completions of the new array are
      exactly the completions of the old one that put `v` there, provided
      the test admits `v`. */
  lemma SolutionStep(p: Problem, a: seq<int>, pos: nat, v: int, t: seq<int>)
    requires |a| == p.size && pos < p.size && Blank(p, a, pos) && v in p.cands
    ensures Solution(p, a, pos, t) && t[pos] == v <==> p.safe(a, pos, v) && Solution(p, a[pos := v], pos + 1, t)
  {
    var a' := a[pos := v];
    if |t| == p.size && t[..pos] == a[..pos] {
      assert Stage(p, t, pos) == a;
    }
    if Solution(p, a', pos + 1, t) {
      assert t[..pos] == a'[..pos + 1][..pos] == a[..pos];
      assert t[pos] == a'[..pos + 1][pos] == v;
      assert Stage(p, t, pos) == a;
    }
    if Solution(p, a, pos, t) && t[pos] == v {
      assert t[..pos + 1] == t[..pos] + [v] && a'[..pos + 1] == a[..pos] + [v];
    }
  }

  /** What `solve(pos)` computes from an array blank from `pos` on: on
      success, the lexicographically first completion; on failure, the
      array it was given, and there is no completion. */
  lemma {:induction false} SolveFirst(p: Problem, a: seq<int>, pos: nat)
    requires |a| == p.size && pos <= p.size && Blank(p, a, pos) && Increasing(p.cands)
    ensures var r := Solve(p, a, pos);
      && (r.0 ==> Solution(p, a, pos, r.1) && forall t :: Solution(p, a, pos, t) ==> LexLe(r.1, t))
      && (!r.0 ==> r.1 == a && forall t :: !Solution(p, a, pos, t))
    decreases p.size - pos, |p.cands| + 1
  {
    if pos == p.size {
      forall t | Solution(p, a, pos, t)
        ensures t == a
      {
        assert t == t[..pos] && a == a[..pos];
      }
    } else {
      TryFirst(p, a, pos, 0);
      forall t | Solution(p, a, pos, t)
        ensures t[pos] in p.cands[0..]
      {
        assert p.cands[0..] == p.cands;
      }
    }
  }

  /** The candidate loop from the `i`-th candidate on: the same, among the
      completions whose value in slot `pos` is one of those candidates. */
  lemma {:induction false} TryFirst(p: Problem, a: seq<int>, pos: nat, i: nat)
    requires |a| == p.size && pos < p.size && i <= |p.cands| && Blank(p, a, pos) && Increasing(p.cands)
    ensures var r := TryFrom(p, a, pos, i);
      && (r.0 ==> Solution(p, a, pos, r.1) && r.1[pos] in p.cands[i..]
                  && forall t :: Solution(p, a, pos, t) && t[pos] in p.cands[i..] ==> LexLe(r.1, t))
      && (!r.0 ==> r.1 == a && forall t :: Solution(p, a, pos, t) ==> t[pos] !in p.cands[i..])
    decreases p.size - pos, |p.cands| - i
  {
    if i < |p.cands| {
      var v := p.cands[i];
      var a' := a[pos := v];
      if p.safe(a, pos, v) {
        assert Blank(p, a', pos + 1);
        SolveFirst(p, a', pos + 1);
        var r := Solve(p, a', pos + 1);
        if r.0 {
          TryHit(p, a, pos, i, r.1);
        } else {
          assert r.1[pos := p.blank] == a;
          TryFirst(p, a, pos, i + 1);
          TrySkip(p, a, pos, i);
        }
      } else {
        TryFirst(p, a, pos, i + 1);
        TrySkip(p, a, pos, i);
      }
    }
  }

  /** Candidate `i` placed and completed to `s`, the first completion
      after it: `s` is the first completion among the candidates from `i`
      on, since every later candidate is larger. */
  lemma TryHit(p: Problem, a: seq<int>, pos: nat, i: nat, s: seq<int>)
    requires |a| == p.size && pos < p.size && i < |p.cands| && Blank(p, a, pos) && Increasing(p.cands)
    requires p.safe(a, pos, p.cands[i]) && Solution(p, a[pos := p.cands[i]], pos + 1, s)
    requires forall t :: Solution(p, a[pos := p.cands[i]], pos + 1, t) ==> LexLe(s, t)
    ensures Solution(p, a, pos, s) && s[pos] in p.cands[i..]
    ensures forall t :: Solution(p, a, pos, t) && t[pos] in p.cands[i..] ==> LexLe(s, t)
  {
    var v := p.cands[i];
    SolutionStep(p, a, pos, v, s);
    assert p.cands[i..][0] == v;
    forall t | Solution(p, a, pos, t) && t[pos] in p.cands[i..]
      ensures LexLe(s, t)
    {
      if t[pos] == v {
        SolutionStep(p, a, pos, v, t);
      } else {
        var j :| i <= j < |p.cands| && p.cands[j] == t[pos];
        assert j != i && v < t[pos];
        assert s[..pos] == a[..pos] == t[..pos];
      }
    }
  }

  /** Candidate `i` either fails the test or the solver finds no
      completion after it: every completion among the candidates from `i` on uses a later one. */
  lemma TrySkip(p: Problem, a: seq<int>, pos: nat, i: nat)
    requires |a| == p.size && pos < p.size && i < |p.cands| && Blank(p, a, pos) && Increasing(p.cands)
    requires !p.safe(a, pos, p.cands[i]) || !Solve(p, a[pos := p.cands[i]], pos + 1).0
    ensures forall t :: Solution(p, a, pos, t) && t[pos] in p.cands[i..] ==> t[pos] in p.cands[i + 1..]
    decreases p.size - pos, 0
  {
    var v := p.cands[i];
    if p.safe(a, pos, v) {
      assert Blank(p, a[pos := v], pos + 1);
      SolveFirst(p, a[pos := v], pos + 1);
    }
    forall t | Solution(p, a, pos, t) && t[pos] in p.cands[i..]
      ensures t[pos] in p.cands[i + 1..]
    {
      if t[pos] == v {
        SolutionStep(p, a, pos, v, t);
      }
      var j :| i <= j < |p.cands| && p.cands[j] == t[pos];
      assert j != i;
    }
  }

  /** The sequence lo, lo + 1, ..., hi - 1. */
  function Range(lo: int, hi: int): (r: seq<int>)
    ensures |r| == if lo <= hi then hi - lo else 0
    ensures forall i :: 0 <= i < |r| ==> r[i] == lo + i
    ensures forall v :: v in r <==> lo <= v < hi
    ensures Increasing(r)
    decreases hi - lo
  {
    if lo >= hi then [] else [lo] + Range(lo + 1, hi)
  }

  /** Two sequences of one length that each come no later than the other
      are equal. */
  lemma LexLeAntisymmetric(s: seq<int>, t: seq<int>)
    requires |s| == |t| && LexLe(s, t) && LexLe(t, s)
    ensures s == t
  {
    if s != t {
      var k :| 0 <= k < |s| && k < |t| && s[..k] == t[..k] && s[k] < t[k];
      var m :| 0 <= m < |t| && m < |s| && t[..m] == s[..m] && t[m] < s[m];
    }
  }
}
