/** Small facts about sequences and sets shared by every search model. */
module Seqs {

  function Last<T>(s: seq<T>): T
    requires |s| > 0
  {
    s[|s| - 1]
  }

  /** The set of elements of a sequence. */
  function Elems<T>(s: seq<T>): set<T>
  {
    set x | x in s
  }

  /** No element occurs twice. */
  predicate NoDup<T(==)>(s: seq<T>)
  {
    forall i, j :: 0 <= i < j < |s| ==> s[i] != s[j]
  }

  lemma NoDupAppend<T>(a: seq<T>, b: seq<T>)
    requires NoDup(a) && NoDup(b) && Elems(a) !! Elems(b)
    ensures NoDup(a + b)
  {
    forall i, j | 0 <= i < j < |a + b|
      ensures (a + b)[i] != (a + b)[j]
    {
      if j >= |a| && i < |a| {
        assert (a + b)[i] in Elems(a);
        assert (a + b)[j] in Elems(b);
      }
    }
  }

  lemma NoDupRemove<T>(s: seq<T>, i: nat)
    requires NoDup(s) && i < |s|
    ensures NoDup(s[..i] + s[i + 1..])
    ensures Elems(s[..i] + s[i + 1..]) == Elems(s) - {s[i]}
  {
    var r := s[..i] + s[i + 1..];
    forall x | x in Elems(s) - {s[i]}
      ensures x in Elems(r)
    {
      var k :| 0 <= k < |s| && s[k] == x;
      if k < i {
        assert r[k] == x;
      } else {
        assert r[k - 1] == x;
      }
    }
  }

  /** Appending an element not yet present keeps a sequence free of
      repeats and adds exactly that element. */
  lemma AppendFresh<T>(s: seq<T>, x: T)
    requires NoDup(s) && x !in Elems(s)
    ensures NoDup(s + [x]) && Elems(s + [x]) == Elems(s) + {x}
    ensures (s + [x])[0] == (if |s| > 0 then s[0] else x) && Last(s + [x]) == x
  {
    NoDupAppend(s, [x]);
    ElemsAppend(s, [x]);
  }

  lemma ElemsAppend<T>(a: seq<T>, b: seq<T>)
    ensures Elems(a + b) == Elems(a) + Elems(b)
  {
  }

  /** Removing the element at `i` loses at most that element. */
  lemma ElemsRemove<T>(s: seq<T>, i: nat)
    requires i < |s|
    ensures Elems(s[..i] + s[i + 1..]) + {s[i]} == Elems(s)
  {
    var r := s[..i] + s[i + 1..];
    forall x | x in Elems(s)
      ensures x in Elems(r) + {s[i]}
    {
      var k :| 0 <= k < |s| && s[k] == x;
      if k < i {
        assert r[k] == x;
      } else if k > i {
        assert r[k - 1] == x;
      }
    }
  }

  /** A duplicate-free sequence has as many distinct elements as positions. */
  lemma {:induction false} NoDupCard<T>(s: seq<T>)
    requires NoDup(s)
    ensures |Elems(s)| == |s|
  {
    if |s| > 0 {
      var t := s[..|s| - 1];
      assert NoDup(t);
      NoDupCard(t);
      assert Elems(s) == Elems(t) + {Last(s)};
      assert Last(s) !in Elems(t);
    }
  }

  lemma {:induction false} SubsetCard<T>(a: set<T>, b: set<T>)
    requires a <= b
    ensures |a| <= |b|
    decreases |b|
  {
    if a != {} {
      var x :| x in a;
      SubsetCard(a - {x}, b - {x});
    }
  }

  /** Taking a new element of `u` into `v` shrinks what is left of `u`. */
  lemma ShrinkRemaining<T>(u: set<T>, v: set<T>, w: set<T>)
    requires v <= w && w <= u && v != w
    ensures |u - w| < |u - v|
  {
    var x :| x in w && x !in v;
    assert u - w <= (u - v) - {x};
    SubsetCard(u - w, (u - v) - {x});
  }

  /** Growing the set `v` within `u` never leaves more of `u` outside it. */
  lemma RemainingMono<T>(u: set<T>, v: set<T>, w: set<T>)
    requires v <= w <= u
    ensures |u - w| <= |u - v|
  {
    if v != w {
      ShrinkRemaining(u, v, w);
    }
  }

  /** Every sequence of length `n` over `alphabet`: a finite set of words. */
  function Words<T>(alphabet: set<T>, n: nat): set<seq<T>>
  {
    if n == 0 then {[]}
    else set c, w | c in alphabet && w in Words(alphabet, n - 1) :: [c] + w
  }

  lemma {:induction false} WordsMember<T>(alphabet: set<T>, n: nat, w: seq<T>)
    ensures w in Words(alphabet, n) <==> |w| == n && forall i :: 0 <= i < |w| ==> w[i] in alphabet
  {
    if n > 0 {
      if w in Words(alphabet, n) {
        var c, v :| c in alphabet && v in Words(alphabet, n - 1) && w == [c] + v;
        WordsMember(alphabet, n - 1, v);
        forall i | 0 <= i < |w|
          ensures w[i] in alphabet
        {
          if i > 0 {
            assert w[i] == v[i - 1];
          }
        }
      }
      if |w| == n && forall i :: 0 <= i < |w| ==> w[i] in alphabet {
        WordsMember(alphabet, n - 1, w[1..]);
        assert w == [w[0]] + w[1..];
      }
    }
  }

  function Pow(b: nat, n: nat): nat
  {
    if n == 0 then 1 else b * Pow(b, n - 1)
  }

  /** There are at most |alphabet|^n words of length n. */
  lemma {:induction false} WordsCard<T>(alphabet: set<T>, n: nat)
    ensures |Words(alphabet, n)| <= Pow(|alphabet|, n)
  {
    if n > 0 {
      var w := Words(alphabet, n - 1);
      WordsCard(alphabet, n - 1);
      ConsCard(alphabet, w);
      assert Words(alphabet, n) == Conses(alphabet, w);
      assert |alphabet| * |w| <= |alphabet| * Pow(|alphabet|, n - 1) by {
        MulMono(|alphabet|, |w|, Pow(|alphabet|, n - 1));
      }
    }
  }

  lemma MulMono(a: nat, b: nat, c: nat)
    requires b <= c
    ensures a * b <= a * c
  {
  }

  /** Every word `[c] + w` with `c` from `heads` and `w` from `tails`. */
  function Conses<T>(heads: set<T>, tails: set<seq<T>>): set<seq<T>>
  {
    set c, w | c in heads && w in tails :: [c] + w
  }

  lemma {:induction false} ConsCard<T>(heads: set<T>, tails: set<seq<T>>)
    ensures |Conses(heads, tails)| <= |heads| * |tails|
    decreases heads
  {
    if heads != {} {
      var c :| c in heads;
      var rest := heads - {c};
      ConsCard(rest, tails);
      PrefixCard(c, tails);
      ConsSplit(heads, tails, c);
      UnionCard(Prefixed(c, tails), Conses(rest, tails));
      assert |heads| * |tails| == |tails| + |rest| * |tails| by {
        assert |heads| == |rest| + 1;
      }
    }
  }

  /** Every word `[c] + w` with `w` from `tails`. */
  function Prefixed<T(==)>(c: T, tails: set<seq<T>>): set<seq<T>>
  {
    set w | w in tails :: [c] + w
  }

  lemma ConsSplit<T>(heads: set<T>, tails: set<seq<T>>, c: T)
    requires c in heads
    ensures Conses(heads, tails) == Prefixed(c, tails) + Conses(heads - {c}, tails)
  {
    forall u | u in Conses(heads, tails)
      ensures u in Prefixed(c, tails) + Conses(heads - {c}, tails)
    {
      var d, w :| d in heads && w in tails && u == [d] + w;
      if d != c {
        assert u in Conses(heads - {c}, tails);
      }
    }
  }

  lemma UnionCard<T>(a: set<T>, b: set<T>)
    ensures |a + b| <= |a| + |b|
  {
    assert |a + b| == |a| + |b - a|;
  }

  lemma {:induction false} PrefixCard<T>(c: T, tails: set<seq<T>>)
    ensures |Prefixed(c, tails)| <= |tails|
    decreases tails
  {
    if tails != {} {
      var w :| w in tails;
      PrefixCard(c, tails - {w});
      assert Prefixed(c, tails) == Prefixed(c, tails - {w}) + {[c] + w};
    }
  }

  /** Java's `indexOf`: the first position of `x`, or -1 when it is absent. */
  function IndexOf<T(==)>(s: seq<T>, x: T): (r: int)
    ensures -1 <= r && (r == -1 <==> x !in s)
    ensures 0 <= r ==> r < |s| && s[r] == x && x !in s[..r]
  {
    if |s| == 0 then -1
    else if s[0] == x then 0
    else
      var k := IndexOf(s[1..], x);
      assert s == [s[0]] + s[1..];
      if k == -1 then -1
      else
        assert s[..k + 1] == [s[0]] + s[1..][..k];
        k + 1
  }

  /** `m` with every key of `keys` mapped to `v`, one update at a time. */
  function Extend<K, V>(m: map<K, V>, keys: seq<K>, v: V): (r: map<K, V>)
    ensures r.Keys == m.Keys + Elems(keys)
    ensures forall k :: k in r ==> r[k] == (if k in keys then v else m[k])
  {
    ExtendEach(m, keys, v)
  }

  /** The recursion behind `Extend`, one key at a time from the back. */
  function ExtendEach<K, V>(m: map<K, V>, keys: seq<K>, v: V): (r: map<K, V>)
    ensures r.Keys == m.Keys + Elems(keys)
    ensures forall k :: k in r ==> r[k] == (if k in keys then v else m[k])
  {
    if keys == [] then m
    else
      assert Elems(keys) == Elems(keys[..|keys| - 1]) + {Last(keys)};
      ExtendEach(m, keys[..|keys| - 1], v)[Last(keys) := v]
  }

  /** The elements of `s` that pass `keep`, in their original order. */
  function Filter<T>(keep: T -> bool, s: seq<T>): (r: seq<T>)
    ensures |r| <= |s|
    ensures forall x :: x in r ==> x in s && keep(x)
    ensures forall x :: x in s && keep(x) ==> x in r
  {
    if s == [] then []
    else
      assert s == [s[0]] + s[1..];
      (if keep(s[0]) then [s[0]] else []) + Filter(keep, s[1..])
  }
}
