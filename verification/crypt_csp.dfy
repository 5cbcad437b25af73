/**
 * `CryptArithmetic`: the letters of the addends and the result get
 * distinct digits by backtracking, one letter at a time in the order the
 * letter set yields them, digits 0 to 9 in order, never 0 for a letter
 * that starts a word; a full assignment is kept only if the addends sum
 * to the result. The Java keeps the assignment as the map `charToDigit`
 * and the flags `usedDigits`; the model keeps one digit slot per letter,
 * -1 when unassigned, and derives both (Mapping, Used).
 */
module CryptCsp {
  import opened Seqs
  import opened Backtrack

  /** `charToDigit`: each assigned letter to its digit. */
  function Mapping(letters: seq<char>, a: seq<int>): (m: map<char, int>)
    requires |a| == |letters| && NoDup(letters)
    ensures forall j :: 0 <= j < |a| ==> (letters[j] in m <==> a[j] != -1)
    ensures forall j :: 0 <= j < |a| && a[j] != -1 ==> m[letters[j]] == a[j]
    ensures forall c :: c in m ==> c in letters
  {
    map j | 0 <= j < |a| && a[j] != -1 :: letters[j] := a[j]
  }

  /** `usedDigits`: which of the digits 0 to 9 some letter holds. */
  function Used(a: seq<int>): (u: seq<bool>)
    ensures |u| == 10 && forall d :: 0 <= d < 10 ==> (u[d] <==> d in a)
  {
    seq(10, d => d in a)
  }

  /** The number a word spells, most significant letter first: the
      reference definition of `wordToNumber`. */
  function Positional(m: map<char, int>, w: string): int
    requires forall i :: 0 <= i < |w| ==> w[i] in m
  {
    if |w| == 0 then 0 else m[w[0]] * Pow(10, |w| - 1) + Positional(m, w[1..])
  }

  /** One more letter on the right shifts the number one place and adds
      the letter's digit. */
  lemma {:induction false} PositionalSnoc(m: map<char, int>, w: string, c: char)
    requires (forall i :: 0 <= i < |w| ==> w[i] in m) && c in m
    ensures Positional(m, w + [c]) == Positional(m, w) * 10 + m[c]
    decreases |w|
  {
    if |w| > 0 {
      assert (w + [c])[1..] == w[1..] + [c];
      PositionalSnoc(m, w[1..], c);
      assert Pow(10, |w|) == 10 * Pow(10, |w| - 1);
    }
  }

  /** `wordToNumber(word)`: `value = value * 10 + digit` letter by letter. */
  method WordToNumber(m: map<char, int>, w: string) returns (value: int)
    requires forall i :: 0 <= i < |w| ==> w[i] in m
    ensures value == Positional(m, w)
  {
    value := 0;
    var i := 0;
    while i < |w|
      invariant 0 <= i <= |w|
      invariant value == Positional(m, w[..i])
    {
      assert w[..i + 1] == w[..i] + [w[i]];
      PositionalSnoc(m, w[..i], w[i]);
      value := value * 10 + m[w[i]];
      i := i + 1;
    }
    assert w[..i] == w;
  }

  /** A word of digits 0 to 9 spells a number below 10 to its length, and
      one with a non-zero first digit spells at least 10 to its length
      less one. */
  lemma {:induction false} PositionalBounds(m: map<char, int>, w: string)
    requires forall i :: 0 <= i < |w| ==> w[i] in m && 0 <= m[w[i]] <= 9
    ensures 0 <= Positional(m, w) < Pow(10, |w|)
    ensures |w| > 0 && m[w[0]] != 0 ==> Pow(10, |w| - 1) <= Positional(m, w)
    decreases |w|
  {
    if |w| > 0 {
      var d, place, rest := m[w[0]], Pow(10, |w| - 1), Positional(m, w[1..]);
      PositionalBounds(m, w[1..]);
      assert Positional(m, w) == d * place + rest;
      assert Pow(10, |w|) == 10 * place;
      DigitPlace(d, place);
    }
  }

  /** A digit in a place worth `place` adds at most nine places, and at
      least one place when it is not zero. */
  lemma DigitPlace(d: int, place: int)
    requires 0 <= d <= 9 && 0 < place
    ensures 0 <= d * place <= 9 * place
    ensures d != 0 ==> place <= d * place
  {
    assert (9 - d) * place >= 0;
    if d != 0 {
      assert (d - 1) * place >= 0;
    }
  }

  /** The sum of the addends' numbers. */
  function Total(m: map<char, int>, words: seq<string>): int
    requires forall k, i :: 0 <= k < |words| && 0 <= i < |words[k]| ==> words[k][i] in m
  {
    if |words| == 0 then 0 else Total(m, words[..|words| - 1]) + Positional(m, words[|words| - 1])
  }

  /** Every letter of every addend and of the result is assigned. */
  predicate Covers(m: map<char, int>, words: seq<string>, result: string)
  {
    && (forall k, i :: 0 <= k < |words| && 0 <= i < |words[k]| ==> words[k][i] in m)
    && (forall i :: 0 <= i < |result| ==> result[i] in m)
  }

  /** `isValidSolution()`: the addends, summed one by one, make the result. */
  method IsValidSolution(m: map<char, int>, words: seq<string>, result: string) returns (ok: bool)
    requires Covers(m, words, result)
    ensures ok <==> Total(m, words) == Positional(m, result)
  {
    var sum := 0;
    var k := 0;
    while k < |words|
      invariant 0 <= k <= |words|
      invariant sum == Total(m, words[..k])
    {
      var n := WordToNumber(m, words[k]);
      assert words[..k + 1][..k] == words[..k];
      sum := sum + n;
      k := k + 1;
    }
    assert words[..k] == words;
    var r := WordToNumber(m, result);
    ok := sum == r;
  }

  /** `startsWith(c)`: `c` is the first letter of an addend or of the
      result. The Java reads the first letter of each word, so every word
      must have one. */
  function StartsWith(words: seq<string>, result: string, c: char): (b: bool)
    requires forall k :: 0 <= k < |words| ==> |words[k]| > 0
    requires |result| > 0
    ensures b <==> (exists k :: 0 <= k < |words| && words[k][0] == c) || result[0] == c
    decreases |words|
  {
    if |words| == 0 then result[0] == c
    else if words[0][0] == c then true
    else
      var b := StartsWith(words[1..], result, c);
      assert forall k :: 1 <= k < |words| ==> words[1..][k - 1] == words[k];
      b
  }

  /** The words have a first letter each, as `startsWith` needs. */
  predicate Lettered(words: seq<string>, result: string)
  {
    (forall k :: 0 <= k < |words| ==> |words[k]| > 0) && |result| > 0
  }

  /** The slots are filled from the letters; every letter has a slot. */
  predicate Spelled(words: seq<string>, result: string, letters: seq<char>)
  {
    && NoDup(letters)
    && (forall k, i :: 0 <= k < |words| && 0 <= i < |words[k]| ==> words[k][i] in letters)
    && (forall i :: 0 <= i < |result| ==> result[i] in letters)
  }

  /** Every slot holds a digit. */
  predicate Assigned(a: seq<int>)
  {
    forall j :: 0 <= j < |a| ==> a[j] != -1
  }

  /** The solver's rules: a slot per letter, blank -1, digits 0 to 9, a
      digit no letter holds yet and not 0 for a leading letter, and a full
      assignment accepted when the sum holds. */
  function Rules(words: seq<string>, result: string, letters: seq<char>): Problem
  {
    Problem(|letters|, -1, Range(0, 10),
      (a: seq<int>, idx: nat, d: int) =>
        Lettered(words, result) && idx < |letters| && d !in a && !(d == 0 && StartsWith(words, result, letters[idx])),
      (a: seq<int>) =>
        && |a| == |letters| && Spelled(words, result, letters) && Assigned(a)
        && Covers(Mapping(letters, a), words, result)
        && Total(Mapping(letters, a), words) == Positional(Mapping(letters, a), result))
  }

  /** No letter assigned: the map and the flags `main` starts from. */
  function Unassigned(letters: seq<char>): (a: seq<int>)
    ensures |a| == |letters| && forall j :: 0 <= j < |a| ==> a[j] == -1
  {
    seq(|letters|, _ => -1)
  }

  /** The puzzle's answers: every letter a digit, no digit twice, no word
      starting with 0, and the addends summing to the result. */
  predicate Solved(words: seq<string>, result: string, letters: seq<char>, t: seq<int>)
    requires Lettered(words, result) && Spelled(words, result, letters)
  {
    && |t| == |letters|
    && (forall j :: 0 <= j < |t| ==> 0 <= t[j] <= 9)
    && NoDup(t)
    && (forall j :: 0 <= j < |t| && StartsWith(words, result, letters[j]) ==> t[j] != 0)
    && Total(Mapping(letters, t), words) == Positional(Mapping(letters, t), result)
  }

  /** Assigning a digit to an unassigned letter puts it into the map. */
  lemma MapPut(letters: seq<char>, a: seq<int>, idx: nat, d: int)
    requires NoDup(letters) && |a| == |letters| && idx < |a| && a[idx] == -1 && d != -1
    ensures Mapping(letters, a[idx := d]) == Mapping(letters, a)[letters[idx] := d]
  {
    var a' := a[idx := d];
    var m, m' := Mapping(letters, a), Mapping(letters, a');
    var n := m[letters[idx] := d];
    forall c | c in m'
      ensures c in n && m'[c] == n[c]
    {
      var j :| 0 <= j < |a| && letters[j] == c;
      if j != idx {
        assert letters[j] != letters[idx] && a'[j] == a[j];
      }
    }
    forall c | c in n
      ensures c in m'
    {
      if c != letters[idx] {
        var j :| 0 <= j < |a| && letters[j] == c;
        assert j != idx && a'[j] == a[j];
      }
    }
    assert m' == n;
  }

  /** Assigning a free digit to an unassigned letter is
      `charToDigit.put(letter, digit)`; undoing it is
      `charToDigit.remove(letter)`, which gives back the map from before. */
  lemma MapAssign(letters: seq<char>, a: seq<int>, idx: nat, d: int)
    requires NoDup(letters) && |a| == |letters| && idx < |a| && a[idx] == -1 && d != -1
    ensures Mapping(letters, a[idx := d]) == Mapping(letters, a)[letters[idx] := d]
    ensures Mapping(letters, a[idx := d]) - {letters[idx]} == Mapping(letters, a)
  {
    var m := Mapping(letters, a);
    MapPut(letters, a, idx, d);
    assert letters[idx] !in m;
    assert m[letters[idx] := d] - {letters[idx]} == m;
  }

  /** Assigning a free digit is `usedDigits[digit] = true`; undoing it is
      `usedDigits[digit] = false`, which gives back the flags from before. */
  lemma UsedAssign(a: seq<int>, idx: nat, d: int)
    requires idx < |a| && a[idx] == -1 && 0 <= d <= 9 && d !in a
    ensures Used(a[idx := d]) == Used(a)[d := true]
    ensures Used(a[idx := d])[d := false] == Used(a)
  {
    var a' := a[idx := d];
    assert a'[idx] == d;
    forall k | 0 <= k < 10
      ensures (k in a') == (k == d || k in a)
    {
      if k in a' && k != d {
        var j :| 0 <= j < |a'| && a'[j] == k;
        assert a[j] == k;
      }
      if k in a {
        var j :| 0 <= j < |a| && a[j] == k;
        assert j != idx && a'[j] == k;
      }
    }
  }

  /** A digit is in the array the solver holds at slot `j` exactly when an
      earlier letter took it: later slots hold -1, which is no digit. */
  lemma StageHolds(p: Problem, t: seq<int>, j: nat)
    requires j < |t| && p.blank == -1 && t[j] != -1
    ensures t[j] in Stage(p, t, j) <==> exists i :: 0 <= i < j && t[i] == t[j]
  {
    var s := Stage(p, t, j);
    if t[j] in s {
      var i :| 0 <= i < |s| && s[i] == t[j];
      assert i < j && s[i] == s[..j][i] == t[i];
    }
    if exists i :: 0 <= i < j && t[i] == t[j] {
      var i :| 0 <= i < j && t[i] == t[j];
      assert s[i] == s[..j][i] == t[i];
    }
  }

  /** With every letter assigned, every letter of every word is mapped. */
  lemma AssignedCovers(words: seq<string>, result: string, letters: seq<char>, t: seq<int>)
    requires Spelled(words, result, letters) && |t| == |letters| && Assigned(t)
    ensures Covers(Mapping(letters, t), words, result)
  {
    var m := Mapping(letters, t);
    forall k, i | 0 <= k < |words| && 0 <= i < |words[k]|
      ensures words[k][i] in m
    {
      var j :| 0 <= j < |letters| && letters[j] == words[k][i];
    }
    forall i | 0 <= i < |result|
      ensures result[i] in m
    {
      var j :| 0 <= j < |letters| && letters[j] == result[i];
    }
  }

  /** The solver's test at slot `j` of an answer: the digit is not taken
      by an earlier letter, and is not 0 if the letter leads a word. */
  lemma SafeSlot(words: seq<string>, result: string, letters: seq<char>, t: seq<int>, j: nat)
    requires Lettered(words, result) && j < |t| == |letters| && t[j] != -1
    ensures var p := Rules(words, result, letters);
      p.safe(Stage(p, t, j), j, t[j]) <==>
        (forall i :: 0 <= i < j ==> t[i] != t[j]) && !(t[j] == 0 && StartsWith(words, result, letters[j]))
  {
    StageHolds(Rules(words, result, letters), t, j);
  }

  /** Every completion the solver accepts is an answer. */
  lemma SolutionSolved(words: seq<string>, result: string, letters: seq<char>, t: seq<int>)
    requires Lettered(words, result) && Spelled(words, result, letters)
    requires Solution(Rules(words, result, letters), Unassigned(letters), 0, t)
    ensures Solved(words, result, letters, t)
  {
    var p := Rules(words, result, letters);
    assert forall j :: 0 <= j < |t| ==> t[j] in p.cands;
    forall j | 0 <= j < |t|
      ensures (forall i :: 0 <= i < j ==> t[i] != t[j]) && !(t[j] == 0 && StartsWith(words, result, letters[j]))
    {
      assert p.safe(Stage(p, t, j), j, t[j]);
      SafeSlot(words, result, letters, t, j);
    }
  }

  /** Every answer is a completion the solver accepts. */
  lemma SolvedSolution(words: seq<string>, result: string, letters: seq<char>, t: seq<int>)
    requires Lettered(words, result) && Spelled(words, result, letters)
    requires Solved(words, result, letters, t)
    ensures Solution(Rules(words, result, letters), Unassigned(letters), 0, t)
  {
    var p := Rules(words, result, letters);
    forall j | 0 <= j < |t|
      ensures t[j] in p.cands && p.safe(Stage(p, t, j), j, t[j])
    {
      SafeSlot(words, result, letters, t, j);
    }
    AssignedCovers(words, result, letters, t);
    assert p.accept(t);
  }

  /** The completions the solver looks for from no assignment are exactly
      the puzzle's answers. */
  lemma SolutionsSolve(words: seq<string>, result: string, letters: seq<char>, t: seq<int>)
    requires Lettered(words, result) && Spelled(words, result, letters)
    ensures Solution(Rules(words, result, letters), Unassigned(letters), 0, t) <==> Solved(words, result, letters, t)
  {
    if Solution(Rules(words, result, letters), Unassigned(letters), 0, t) {
      SolutionSolved(words, result, letters, t);
    }
    if Solved(words, result, letters, t) {
      SolvedSolution(words, result, letters, t);
    }
  }

  /** `solve(letters, 0)` from no assignment: it succeeds exactly when the
      puzzle has an answer, leaves the first answer in digit order of the
      letters, and on failure leaves every letter unassigned. */
  lemma SolveCrypt(words: seq<string>, result: string, letters: seq<char>)
    requires Lettered(words, result) && Spelled(words, result, letters)
    ensures var r := Solve(Rules(words, result, letters), Unassigned(letters), 0);
      && (r.0 <==> exists t :: Solved(words, result, letters, t))
      && (r.0 ==> Solved(words, result, letters, r.1) && forall t :: Solved(words, result, letters, t) ==> LexLe(r.1, t))
      && (!r.0 ==> r.1 == Unassigned(letters))
  {
    var p := Rules(words, result, letters);
    var r := Solve(p, Unassigned(letters), 0);
    SolveFirst(p, Unassigned(letters), 0);
    SolutionsSolve(words, result, letters, r.1);
    forall t | Solved(words, result, letters, t)
      ensures r.0 && LexLe(r.1, t)
    {
      SolutionsSolve(words, result, letters, t);
    }
  }

  /** The digits of an assignment read off in another order of the same
      letters. */
  function Relabel(letters: seq<char>, t: seq<int>, letters': seq<char>): (t': seq<int>)
    requires NoDup(letters) && |t| == |letters| && Assigned(t)
    requires forall c :: c in letters' ==> c in letters
    ensures |t'| == |letters'|
    ensures forall j :: 0 <= j < |t'| ==> letters'[j] in Mapping(letters, t) && t'[j] == Mapping(letters, t)[letters'[j]]
  {
    var m := Mapping(letters, t);
    assert forall c :: c in letters ==> c in m by {
      forall c | c in letters
        ensures c in m
      {
        var i :| 0 <= i < |letters| && letters[i] == c;
      }
    }
    seq(|letters'|, j requires 0 <= j < |letters'| => m[letters'[j]])
  }

  /** Each relabelled digit is the digit of the same letter before. */
  lemma RelabelFrom(letters: seq<char>, t: seq<int>, letters': seq<char>, j: nat)
    requires NoDup(letters) && |t| == |letters| && Assigned(t)
    requires (forall c :: c in letters' ==> c in letters) && j < |letters'|
    ensures exists i :: 0 <= i < |t| && letters[i] == letters'[j] && t[i] == Relabel(letters, t, letters')[j]
  {
    assert letters'[j] in letters;
    var i :| 0 <= i < |letters| && letters[i] == letters'[j];
    assert t[i] == Mapping(letters, t)[letters[i]];
  }

  /** Every letter the relabelled map holds, the original holds. */
  lemma RelabelKey(letters: seq<char>, t: seq<int>, letters': seq<char>, c: char)
    requires NoDup(letters) && |t| == |letters| && Assigned(t)
    requires NoDup(letters') && (forall c :: c in letters' ==> c in letters)
    requires c in Mapping(letters', Relabel(letters, t, letters'))
    ensures c in Mapping(letters, t)
  {
    var j :| 0 <= j < |letters'| && letters'[j] == c;
  }

  /** Every letter the original map holds, the relabelled map holds with
      the same digit. */
  lemma RelabelValue(letters: seq<char>, t: seq<int>, letters': seq<char>, c: char)
    requires NoDup(letters) && |t| == |letters| && Assigned(t)
    requires NoDup(letters') && forall c :: c in letters' <==> c in letters
    requires c in Mapping(letters, t)
    ensures var m' := Mapping(letters', Relabel(letters, t, letters'));
      c in m' && m'[c] == Mapping(letters, t)[c]
  {
    var t' := Relabel(letters, t, letters');
    assert c in letters;
    var j :| 0 <= j < |letters'| && letters'[j] == c;
    RelabelFrom(letters, t, letters', j);
    assert t'[j] != -1;
  }

  /** Relabelling onto another order of the same letters keeps the map
      from letters to digits. */
  lemma RelabelMapping(letters: seq<char>, t: seq<int>, letters': seq<char>)
    requires NoDup(letters) && |t| == |letters| && Assigned(t)
    requires NoDup(letters') && forall c :: c in letters' <==> c in letters
    ensures Mapping(letters', Relabel(letters, t, letters')) == Mapping(letters, t)
  {
    var m, m' := Mapping(letters, t), Mapping(letters', Relabel(letters, t, letters'));
    forall c | c in m'
      ensures c in m
    {
      RelabelKey(letters, t, letters', c);
    }
    forall c | c in m
      ensures c in m' && m'[c] == m[c]
    {
      RelabelValue(letters, t, letters', c);
    }
    SameMap(m, m');
  }

  /** Two maps with the same keys and the same value at each are equal. */
  lemma SameMap(m: map<char, int>, m': map<char, int>)
    requires forall c :: c in m' ==> c in m
    requires forall c :: c in m ==> c in m' && m'[c] == m[c]
    ensures m' == m
  {
  }

  /** Relabelled digits are digits, none twice, and not 0 on a letter
      that leads a word. */
  lemma RelabelDigits(words: seq<string>, result: string, letters: seq<char>, t: seq<int>, letters': seq<char>)
    requires Lettered(words, result) && Spelled(words, result, letters) && Solved(words, result, letters, t)
    requires NoDup(letters') && forall c :: c in letters' <==> c in letters
    ensures var t' := Relabel(letters, t, letters');
      && (forall j :: 0 <= j < |t'| ==> 0 <= t'[j] <= 9)
      && NoDup(t')
      && (forall j :: 0 <= j < |t'| && StartsWith(words, result, letters'[j]) ==> t'[j] != 0)
  {
    var t' := Relabel(letters, t, letters');
    forall j | 0 <= j < |t'|
      ensures 0 <= t'[j] <= 9 && (StartsWith(words, result, letters'[j]) ==> t'[j] != 0)
    {
      RelabelFrom(letters, t, letters', j);
    }
    forall a, b | 0 <= a < b < |t'|
      ensures t'[a] != t'[b]
    {
      RelabelFrom(letters, t, letters', a);
      RelabelFrom(letters, t, letters', b);
    }
  }

  /** The answers do not depend on the order of the letters: relabelled
      onto another repeat-free order of the same letters, an answer is
      still an answer, and it gives every letter the same digit. */
  lemma RelabelSolved(words: seq<string>, result: string, letters: seq<char>, t: seq<int>, letters': seq<char>)
    requires Lettered(words, result) && Spelled(words, result, letters) && Solved(words, result, letters, t)
    requires NoDup(letters') && forall c :: c in letters' <==> c in letters
    ensures Spelled(words, result, letters')
    ensures Solved(words, result, letters', Relabel(letters, t, letters'))
    ensures Mapping(letters', Relabel(letters, t, letters')) == Mapping(letters, t)
  {
    RelabelMapping(letters, t, letters');
    RelabelDigits(words, result, letters, t, letters');
  }

  /** The program's puzzle, SEND + MORE = MONEY, with its letters in
      order of first appearance (the letter set's own order is arbitrary;
      SolveCrypt holds for every order). */
  const Addends: seq<string> := ["SEND", "MORE"]
  const Sum: string := "MONEY"
  const SampleLetters: seq<char> := "SENDMORY"

  /** 9567 + 1085 = 10652. */
  const SampleDigits: seq<int> := [9, 5, 6, 7, 1, 0, 8, 2]

  /** The puzzle is well formed. */
  lemma SampleSpelled()
    ensures Lettered(Addends, Sum) && Spelled(Addends, Sum, SampleLetters)
  {
    assert forall k, i :: 0 <= k < |Addends| && 0 <= i < |Addends[k]| ==> Addends[k][i] in SampleLetters;
  }

  /** The sample's letters have the digits of 9567 + 1085 = 10652. */
  predicate SampleDigitsIn(m: map<char, int>)
  {
    && 'S' in m && m['S'] == 9 && 'E' in m && m['E'] == 5 && 'N' in m && m['N'] == 6 && 'D' in m && m['D'] == 7
    && 'M' in m && m['M'] == 1 && 'O' in m && m['O'] == 0 && 'R' in m && m['R'] == 8 && 'Y' in m && m['Y'] == 2
  }

  /** No letter of the sample occurs twice. */
  lemma SampleNoDup()
    ensures NoDup(SampleLetters)
  {
  }

  /** Placing the sample digits on the sample letters gives each letter
      its digit. */
  lemma SampleMapping()
    ensures NoDup(SampleLetters) && SampleDigitsIn(Mapping(SampleLetters, SampleDigits))
  {
    SampleNoDup();
    assert SampleLetters[0] == 'S' && SampleLetters[1] == 'E' && SampleLetters[2] == 'N' && SampleLetters[3] == 'D';
    assert SampleLetters[4] == 'M' && SampleLetters[5] == 'O' && SampleLetters[6] == 'R' && SampleLetters[7] == 'Y';
    assert SampleDigits[0] == 9 && SampleDigits[1] == 5 && SampleDigits[2] == 6 && SampleDigits[3] == 7;
    assert SampleDigits[4] == 1 && SampleDigits[5] == 0 && SampleDigits[6] == 8 && SampleDigits[7] == 2;
  }

  /** Powers of ten up to the fifth letter. */
  lemma TenPowers()
    ensures Pow(10, 1) == 10 && Pow(10, 2) == 100 && Pow(10, 3) == 1000 && Pow(10, 4) == 10000
  {
    assert Pow(10, 1) == 10;
    assert Pow(10, 2) == 100;
    assert Pow(10, 3) == 1000;
  }

  /** SEND spells 9567. */
  lemma SendValue(m: map<char, int>)
    requires SampleDigitsIn(m)
    ensures Positional(m, "SEND") == 9567
  {
    TenPowers();
    assert "D"[1..] == "";
    assert Positional(m, "D") == 7;
    assert "ND"[1..] == "D";
    assert Positional(m, "ND") == 67;
    assert "END"[1..] == "ND";
    assert Positional(m, "END") == 567;
    assert "SEND"[1..] == "END";
    assert Positional(m, "SEND") == 9567;
  }

  /** MORE spells 1085. */
  lemma MoreValue(m: map<char, int>)
    requires SampleDigitsIn(m)
    ensures Positional(m, "MORE") == 1085
  {
    TenPowers();
    assert "E"[1..] == "";
    assert Positional(m, "E") == 5;
    assert "RE"[1..] == "E";
    assert Positional(m, "RE") == 85;
    assert "ORE"[1..] == "RE";
    assert Positional(m, "ORE") == 85;
    assert "MORE"[1..] == "ORE";
    assert Positional(m, "MORE") == 1085;
  }

  /** MONEY spells 10652. */
  lemma MoneyValue(m: map<char, int>)
    requires SampleDigitsIn(m)
    ensures Positional(m, "MONEY") == 10652
  {
    TenPowers();
    assert "Y"[1..] == "";
    assert Positional(m, "Y") == 2;
    assert "EY"[1..] == "Y";
    assert Positional(m, "EY") == 52;
    assert "NEY"[1..] == "EY";
    assert Positional(m, "NEY") == 652;
    assert "ONEY"[1..] == "NEY";
    assert Positional(m, "ONEY") == 652;
    assert "MONEY"[1..] == "ONEY";
    assert Positional(m, "MONEY") == 10652;
  }

  /** SEND + MORE = MONEY holds under any map giving the sample's digits. */
  lemma SampleSum(m: map<char, int>)
    requires SampleDigitsIn(m) && Covers(m, Addends, Sum)
    ensures Total(m, Addends) == Positional(m, Sum)
  {
    SendValue(m);
    MoreValue(m);
    MoneyValue(m);
    assert Addends[..1][..0] == [] && Addends[..1][0] == "SEND" && Addends[1] == "MORE";
    assert Total(m, Addends[..1]) == 9567;
  }

  /** Only O, which leads no word, gets 0. */
  lemma SampleLeading()
    ensures Lettered(Addends, Sum)
    ensures forall j :: 0 <= j < |SampleDigits| && StartsWith(Addends, Sum, SampleLetters[j]) ==> SampleDigits[j] != 0
  {
    SampleSpelled();
    assert !StartsWith(Addends, Sum, 'O');
    assert SampleLetters[5] == 'O';
  }

  /** The sample digits are digits, none twice. */
  lemma SampleDistinct()
    ensures NoDup(SampleDigits) && forall j :: 0 <= j < |SampleDigits| ==> 0 <= SampleDigits[j] <= 9
  {
  }

  /** The parts of an answer, checked one by one. */
  lemma SolvedBy(words: seq<string>, result: string, letters: seq<char>, t: seq<int>)
    requires Lettered(words, result) && Spelled(words, result, letters) && |t| == |letters|
    requires NoDup(t) && forall j :: 0 <= j < |t| ==> 0 <= t[j] <= 9
    requires forall j :: 0 <= j < |t| && StartsWith(words, result, letters[j]) ==> t[j] != 0
    requires Covers(Mapping(letters, t), words, result)
    requires Total(Mapping(letters, t), words) == Positional(Mapping(letters, t), result)
    ensures Solved(words, result, letters, t)
  {
  }

  /** The sample digits answer the sample puzzle. */
  lemma SampleSolved()
    ensures Lettered(Addends, Sum) && Spelled(Addends, Sum, SampleLetters)
    ensures Solved(Addends, Sum, SampleLetters, SampleDigits)
  {
    SampleSpelled();
    SampleDistinct();
    SampleMapping();
    AssignedCovers(Addends, Sum, SampleLetters, SampleDigits);
    SampleSum(Mapping(SampleLetters, SampleDigits));
    SampleLeading();
    SolvedBy(Addends, Sum, SampleLetters, SampleDigits);
  }

  /** SEND + MORE = MONEY has the answer 9567 + 1085 = 10652 in every
      order of its eight letters, so the program's solve succeeds whatever
      order its letter set yields. */
  lemma SendMoreMoney(letters: seq<char>)
    requires NoDup(letters) && forall c :: c in letters <==> c in SampleLetters
    ensures Spelled(Addends, Sum, letters)
    ensures Solved(Addends, Sum, letters, Relabel(SampleLetters, SampleDigits, letters))
    ensures Solve(Rules(Addends, Sum, letters), Unassigned(letters), 0).0
  {
    SampleSolved();
    RelabelSolved(Addends, Sum, SampleLetters, SampleDigits, letters);
    SolveCrypt(Addends, Sum, letters);
  }
}
