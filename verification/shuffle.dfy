/**
 * The Fisher-Yates swap loop of `Deck.shuffle`. The random index `shuffle`
 * draws with `Math.random()` on the step for position `i` is supplied by an
 * oracle `rand`, which may answer anything in `[0, i]`.
 */
module Shuffling {
  import opened Lang

  /** An admissible source of swap indices: step `i` swaps with some `j <= i`. */
  ghost predicate IsSwapOracle(rand: nat -> nat) {
    forall i: nat :: rand(i) <= i
  }

  /** `s` with the elements at `i` and `j` exchanged (a no-op when `i == j`). */
  function Swap<T>(s: seq<T>, i: nat, j: nat): (r: seq<T>)
    requires i < |s| && j < |s|
    ensures |r| == |s|
    ensures r[i] == s[j] && r[j] == s[i]
    ensures forall k :: 0 <= k < |s| && k != i && k != j ==> r[k] == s[k]
  {
    s[i := s[j]][j := s[i]]
  }

  /** A swap rearranges elements and loses none. */
  lemma SwapMultiset<T>(s: seq<T>, i: nat, j: nat)
    requires i < |s| && j < |s|
    ensures multiset(Swap(s, i, j)) == multiset(s)
  {
  }

  /** The loop steps for positions `i`, `i - 1`, ..., `1`, in that order. */
  function SwapDown<T>(s: seq<T>, rand: nat -> nat, i: nat): (r: seq<T>)
    requires i < |s|
    requires IsSwapOracle(rand)
    ensures |r| == |s|
    decreases i
  {
    if i == 0 then s else SwapDown(Swap(s, i, rand(i)), rand, i - 1)
  }

  lemma {:induction false} SwapDownMultiset<T>(s: seq<T>, rand: nat -> nat, i: nat)
    requires i < |s|
    requires IsSwapOracle(rand)
    ensures multiset(SwapDown(s, rand, i)) == multiset(s)
    decreases i
  {
    if i > 0 {
      SwapMultiset(s, i, rand(i));
      SwapDownMultiset(Swap(s, i, rand(i)), rand, i - 1);
    }
  }

  /**
   * `Deck.shuffle` as a function of the oracle: the loop runs from the last
   * position down to position 1, so lists of length 0 and 1 are left alone.
   */
  function Shuffle<T>(s: seq<T>, rand: nat -> nat): (r: seq<T>)
    requires IsSwapOracle(rand)
    ensures |r| == |s|
    ensures multiset(r) == multiset(s)
    ensures |s| <= 1 ==> r == s
  {
    if |s| == 0 then s
    else
      SwapDownMultiset(s, rand, |s| - 1);
      SwapDown(s, rand, |s| - 1)
  }

  /**
   * The in-place loop of `shuffle` over an array: from the last position
   * down to 1, swap with the position the oracle names.
   * It computes exactly `Shuffle`.
   */
  method ShuffleLoop<T>(s: seq<T>, rand: nat -> nat) returns (r: seq<T>)
    requires IsSwapOracle(rand)
    ensures r == Shuffle(s, rand)
    ensures multiset(r) == multiset(s)
  {
    if |s| == 0 {
      return s;
    }
    var a := new T[|s|](k requires 0 <= k < |s| => s[k]);
    var i: int := a.Length - 1;
    assert a[..] == s;
    ghost var target := SwapDown(s, rand, |s| - 1);
    while i > 0
      invariant 0 <= i < a.Length
      invariant SwapDown(a[..], rand, i) == target
      decreases i
    {
      ghost var before := a[..];
      SwapInPlace(a, i, rand(i));
      SwapDownStep(before, rand, i);
      i := i - 1;
    }
    r := a[..];
    assert target == Shuffle(s, rand);
  }

  /** The first step of `SwapDown` at a position `i > 0`. */
  lemma SwapDownStep<T>(s: seq<T>, rand: nat -> nat, i: nat)
    requires 0 < i < |s|
    requires IsSwapOracle(rand)
    ensures SwapDown(s, rand, i) == SwapDown(Swap(s, i, rand(i)), rand, i - 1)
  {
  }

  /** One pass of the loop body: the three assignments through `temp`. */
  method SwapInPlace<T>(a: array<T>, i: nat, j: nat)
    requires i < a.Length && j < a.Length
    modifies a
    ensures a[..] == Swap(old(a[..]), i, j)
  {
    var temp := a[i];
    a[i] := a[j];
    a[j] := temp;
  }

  // ---------------------------------------------------------------------
  // Every ordering is reachable, and by exactly one choice of indices
  // ---------------------------------------------------------------------

  /** A swap inside the first `i + 1` positions commutes with cutting there. */
  lemma SwapInPrefix<T>(s: seq<T>, i: nat, k: nat)
    requires k <= i < |s|
    ensures Swap(s, i, k)[..i + 1] == Swap(s[..i + 1], i, k)
    ensures Swap(s, i, k)[i + 1..] == s[i + 1..]
  {
  }

  /** Splitting a list at `i` after splitting it at `i + 1`. */
  lemma SplitTwice<T>(s: seq<T>, i: nat)
    requires i < |s|
    ensures s[..i + 1][..i] == s[..i]
    ensures s[i..] == s[..i + 1][i..] + s[i + 1..]
  {
  }

  /** The steps for positions at most `i` never touch what lies after `i`. */
  lemma {:induction false} SwapDownKeepsSuffix<T>(s: seq<T>, rand: nat -> nat, i: nat)
    requires i < |s|
    requires IsSwapOracle(rand)
    ensures SwapDown(s, rand, i) == SwapDown(s[..i + 1], rand, i) + s[i + 1..]
    decreases i, 1
  {
    if i == 0 {
      assert s == s[..1] + s[1..];
    } else {
      var k := rand(i);
      var t := Swap(s, i, k);
      SwapDownWhole(s, rand, i);
      SwapDownPrefix(s, rand, i);
      SwapInPrefix(s, i, k);
      SplitTwice(t, i);
      AppendAssoc(SwapDown(t[..i], rand, i - 1), t[..i + 1][i..], s[i + 1..]);
    }
  }

  /** The first step on the whole list, then the rest split at `i`. */
  lemma {:induction false} SwapDownWhole<T>(s: seq<T>, rand: nat -> nat, i: nat)
    requires 0 < i < |s|
    requires IsSwapOracle(rand)
    ensures var t := Swap(s, i, rand(i));
      SwapDown(s, rand, i) == SwapDown(t[..i], rand, i - 1) + t[i..]
    decreases i, 0
  {
    SwapDownKeepsSuffix(Swap(s, i, rand(i)), rand, i - 1);
  }

  /** The first step on the first `i + 1` elements, then the rest split at `i`. */
  lemma {:induction false} SwapDownPrefix<T>(s: seq<T>, rand: nat -> nat, i: nat)
    requires 0 < i < |s|
    requires IsSwapOracle(rand)
    ensures var t := Swap(s, i, rand(i));
      SwapDown(s[..i + 1], rand, i) == SwapDown(t[..i], rand, i - 1) + t[..i + 1][i..]
    decreases i, 0
  {
    var t := Swap(s, i, rand(i));
    var u := t[..i + 1];
    SwapInPrefix(s, i, rand(i));
    assert SwapDown(s[..i + 1], rand, i) == SwapDown(u, rand, i - 1);
    SwapDownKeepsSuffix(u, rand, i - 1);
    assert u[..i] == t[..i];
  }

  /**
   * Unrolling the first step: the last position receives `s[rand(n - 1)]`
   * and keeps it, and the rest is shuffled as a list of length `n - 1`.
   */
  lemma ShuffleLastStep<T>(s: seq<T>, rand: nat -> nat)
    requires |s| > 0
    requires IsSwapOracle(rand)
    ensures var n := |s|;
      Shuffle(s, rand) == Shuffle(Swap(s, n - 1, rand(n - 1))[..n - 1], rand) + [s[rand(n - 1)]]
  {
    var n := |s|;
    var t := Swap(s, n - 1, rand(n - 1));
    if n == 1 {
      assert t == s;
    } else {
      SwapDownKeepsSuffix(t, rand, n - 2);
      assert t[..n - 1 + 0][..n - 2 + 1] == t[..n - 1];
      assert t[n - 1..] == [s[rand(n - 1)]];
    }
  }

  /** Only the answers for positions `1..i` matter to the steps up to `i`. */
  lemma {:induction false} SwapDownOracleAgreement<T>(s: seq<T>, r1: nat -> nat, r2: nat -> nat, i: nat)
    requires i < |s|
    requires IsSwapOracle(r1) && IsSwapOracle(r2)
    requires forall k: nat :: 1 <= k <= i ==> r1(k) == r2(k)
    ensures SwapDown(s, r1, i) == SwapDown(s, r2, i)
    decreases i
  {
    if i > 0 {
      SwapDownOracleAgreement(Swap(s, i, r1(i)), r1, r2, i - 1);
    }
  }

  /** The oracle that answers `k` at position `n` and agrees with `rand` elsewhere. */
  function Override(rand: nat -> nat, n: nat, k: nat): (o: nat -> nat)
    requires IsSwapOracle(rand) && k <= n
    ensures IsSwapOracle(o)
    ensures o(n) == k
    ensures forall i: nat :: i != n ==> o(i) == rand(i)
  {
    i => if i == n then k else rand(i)
  }

  lemma DropLastMultiset<T>(s: seq<T>, t: seq<T>)
    requires |s| > 0 && multiset(s) == multiset(t)
    requires |t| == |s| && s[|s| - 1] == t[|t| - 1]
    ensures multiset(s[..|s| - 1]) == multiset(t[..|t| - 1])
  {
    var x := s[|s| - 1];
    assert s == s[..|s| - 1] + [x];
    assert t == t[..|t| - 1] + [x];
    CancelOne(multiset(s[..|s| - 1]), multiset(t[..|t| - 1]), x);
  }

  /** Where the last element of a rearrangement `t` of `s` sits in `s`. */
  lemma SourceOfLast<T>(s: seq<T>, t: seq<T>) returns (k: nat)
    requires |s| > 0 && multiset(t) == multiset(s)
    ensures |t| == |s| && k < |s| && s[k] == t[|t| - 1]
  {
    assert |t| == |multiset(t)| == |s|;
    var last := t[|t| - 1];
    assert last in multiset(t);
    k :| 0 <= k < |s| && s[k] == last;
  }

  /**
   * Extending an oracle that shuffles the first `n - 1` elements of
   * `Swap(s, n - 1, k)` into `u` with the answer `k` at position `n - 1`
   * shuffles `s` into `u + [s[k]]`.
   */
  lemma ExtendOracle<T>(s: seq<T>, k: nat, r: nat -> nat, u: seq<T>)
    requires k < |s| && IsSwapOracle(r)
    requires Shuffle(Swap(s, |s| - 1, k)[..|s| - 1], r) == u
    ensures IsSwapOracle(Override(r, |s| - 1, k))
    ensures Shuffle(s, Override(r, |s| - 1, k)) == u + [s[k]]
  {
    var n := |s|;
    var rand := Override(r, n - 1, k);
    var p := Swap(s, n - 1, k)[..n - 1];
    if n > 1 {
      SwapDownOracleAgreement(p, rand, r, n - 2);
      assert Shuffle(p, rand) == Shuffle(p, r);
    }
    ShuffleLastStep(s, rand);
  }

  /**
   * Moving the source of `t`'s last element to the end of `s` leaves a
   * prefix that is a rearrangement of the rest of `t`.
   */
  lemma PrefixRearranges<T>(s: seq<T>, t: seq<T>, k: nat)
    requires |s| > 0 && |t| == |s| && k < |s| && multiset(t) == multiset(s)
    requires s[k] == t[|t| - 1]
    ensures multiset(t[..|t| - 1]) == multiset(Swap(s, |s| - 1, k)[..|s| - 1])
    ensures t == t[..|t| - 1] + [s[k]]
  {
    assert t == t[..|t| - 1] + [t[|t| - 1]];
    var s' := Swap(s, |s| - 1, k);
    SwapMultiset(s, |s| - 1, k);
    DropLastMultiset(s', t);
  }

  /**
   * Surjectivity: every rearrangement `t` of `s` is the outcome of some
   * admissible sequence of swap indices.
   */
  lemma {:induction false} ShuffleReachesEveryOrder<T>(s: seq<T>, t: seq<T>)
    requires multiset(t) == multiset(s)
    ensures exists rand: nat -> nat :: IsSwapOracle(rand) && Shuffle(s, rand) == t
    decreases |s|
  {
    if |s| == 0 {
      var rand: nat -> nat := i => 0;
      assert |t| == |multiset(t)| == 0;
      assert Shuffle(s, rand) == t;
    } else {
      var n := |s|;
      var k := SourceOfLast(s, t);
      PrefixRearranges(s, t, k);
      var p := Swap(s, n - 1, k)[..n - 1];
      ShuffleReachesEveryOrder(p, t[..n - 1]);
      var r :| IsSwapOracle(r) && Shuffle(p, r) == t[..n - 1];
      ExtendOracle(s, k, r, t[..n - 1]);
    }
  }

  /** No element occurs twice. */
  predicate Distinct<T(==)>(s: seq<T>) {
    forall a, b :: 0 <= a < b < |s| ==> s[a] != s[b]
  }

  lemma SwapDistinct<T>(s: seq<T>, i: nat, j: nat)
    requires i < |s| && j < |s|
    requires Distinct(s)
    ensures Distinct(Swap(s, i, j))
  {
    var r := Swap(s, i, j);
    forall a, b | 0 <= a < b < |r|
      ensures r[a] != r[b]
    {
      var pa := if a == i then j else if a == j then i else a;
      var pb := if b == i then j else if b == j then i else b;
      assert r[a] == s[pa] && r[b] == s[pb];
    }
  }

  /**
   * Injectivity: on a list of distinct cards, two admissible oracles that
   * produce the same order chose the same index at every step. With
   * surjectivity, choice sequences and orderings correspond one to one.
   */
  lemma {:induction false} ShuffleChoicesAreDetermined<T>(s: seq<T>, r1: nat -> nat, r2: nat -> nat)
    requires Distinct(s)
    requires IsSwapOracle(r1) && IsSwapOracle(r2)
    requires Shuffle(s, r1) == Shuffle(s, r2)
    ensures forall i: nat :: 1 <= i < |s| ==> r1(i) == r2(i)
    decreases |s|
  {
    var n := |s|;
    if n > 1 {
      ShuffleLastStep(s, r1);
      ShuffleLastStep(s, r2);
      var k1, k2 := r1(n - 1), r2(n - 1);
      assert Shuffle(s, r1)[n - 1] == s[k1];
      assert Shuffle(s, r2)[n - 1] == s[k2];
      assert k1 == k2;
      var s' := Swap(s, n - 1, k1);
      SwapDistinct(s, n - 1, k1);
      var p := s'[..n - 1];
      assert Shuffle(p, r1) == Shuffle(s, r1)[..n - 1];
      assert Shuffle(p, r2) == Shuffle(s, r2)[..n - 1];
      ShuffleChoicesAreDetermined(p, r1, r2);
    }
  }
}
