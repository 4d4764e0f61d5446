/** The two Python list operations the session store relies on: `list.remove`
    (drop the first occurrence of a value) and `random.shuffle` (reorder in
    place). The shuffle's randomness is a parameter: a sequence of draws. */
module PyList {

  predicate NoDuplicates<T(==)>(s: seq<T>) {
    forall i, j :: 0 <= i < j < |s| ==> s[i] != s[j]
  }

  /** Position of the first occurrence of x in s. */
  function FirstIndex<T(==)>(s: seq<T>, x: T): (i: nat)
    requires x in s
    ensures i < |s| && s[i] == x && x !in s[..i]
  {
    if s[0] == x then 0
    else
      var i := 1 + FirstIndex(s[1..], x);
      assert s[..i] == [s[0]] + s[1..][..i - 1];
      i
  }

  /** `s.remove(x)`: the first occurrence of x is taken out, the rest keep their order. */
  function RemoveFirst<T(==)>(s: seq<T>, x: T): (r: seq<T>)
    requires x in s
    ensures r == s[..FirstIndex(s, x)] + s[FirstIndex(s, x) + 1..]
    ensures |r| == |s| - 1
    ensures multiset(r) == multiset(s) - multiset{x}
  {
    var i := FirstIndex(s, x);
    assert s == s[..i] + [x] + s[i + 1..];
    s[..i] + s[i + 1..]
  }

  /** `random.shuffle(s)`, modelled as a selection shuffle driven by `draws`:
      each step takes the element at position `draw % |s|` of what is left as
      the next one; missing draws count as 0. This is not the algorithm
      Python runs; ShuffleReachesEveryPermutation shows it has the same
      possible outcomes, every reordering of s. */
  function Shuffled<T>(s: seq<T>, draws: seq<nat>): (r: seq<T>)
    ensures |r| == |s|
    ensures multiset(r) == multiset(s)
    decreases |s|
  {
    if s == [] then []
    else
      var k := if draws == [] then 0 else draws[0] % |s|;
      var rest := s[..k] + s[k + 1..];
      assert s == s[..k] + [s[k]] + s[k + 1..];
      [s[k]] + Shuffled(rest, if draws == [] then [] else draws[1..])
  }

  /** The shuffle excludes no ordering: every permutation of s is the result of some draws. */
  lemma ShuffleReachesEveryPermutation<T>(s: seq<T>, r: seq<T>)
    requires multiset(r) == multiset(s)
    ensures exists draws :: Shuffled(s, draws) == r
  {
    ShuffledByPermutationDraws(s, r);
  }

  /** Draws that make the shuffle of s produce r: at each step, the position
      in what is left of s of the next element of r. */
  ghost function PermutationDraws<T>(s: seq<T>, r: seq<T>): (draws: seq<nat>)
    requires multiset(r) == multiset(s)
    ensures |draws| == |s|
    decreases |s|
  {
    if s == [] then []
    else
      PermutationHead(s, r);
      var k := FirstIndex(s, r[0]);
      PermutationTail(s, r, k);
      [k] + PermutationDraws(s[..k] + s[k + 1..], r[1..])
  }

  lemma {:induction false} ShuffledByPermutationDraws<T>(s: seq<T>, r: seq<T>)
    requires multiset(r) == multiset(s)
    ensures Shuffled(s, PermutationDraws(s, r)) == r
    decreases |s|
  {
    if s == [] {
      assert |r| == |multiset(r)| == 0;
    } else {
      var k, rest := PermutationDrawsHead(s, r);
      ShuffledByPermutationDraws(rest, r[1..]);
      ShuffledFirstDraw(s, k, PermutationDraws(rest, r[1..]));
      ConsOfHead(r, s[k]);
    }
  }

  /** The first of the draws for a non-empty s, and what is left of s after it. */
  lemma PermutationDrawsHead<T>(s: seq<T>, r: seq<T>) returns (k: nat, rest: seq<T>)
    requires multiset(r) == multiset(s)
    requires s != []
    ensures k < |s| && r != [] && s[k] == r[0]
    ensures rest == s[..k] + s[k + 1..]
    ensures multiset(r[1..]) == multiset(rest)
    ensures PermutationDraws(s, r) == [k] + PermutationDraws(rest, r[1..])
  {
    PermutationHead(s, r);
    k := FirstIndex(s, r[0]);
    rest := s[..k] + s[k + 1..];
    PermutationTail(s, r, k);
  }

  lemma ConsOfHead<T>(r: seq<T>, x: T)
    requires r != [] && r[0] == x
    ensures r == [x] + r[1..]
  {
  }

  /** A first draw below |s| picks the element at that position. */
  lemma ShuffledFirstDraw<T>(s: seq<T>, k: nat, tail: seq<nat>)
    requires k < |s|
    ensures Shuffled(s, [k] + tail) == [s[k]] + Shuffled(s[..k] + s[k + 1..], tail)
  {
    var draws := [k] + tail;
    ModOfSmaller(k, |s|);
    assert draws[0] % |s| == k && draws[1..] == tail;
  }

  /** A permutation of a non-empty list is non-empty and starts with one of its elements. */
  lemma PermutationHead<T>(s: seq<T>, r: seq<T>)
    requires multiset(r) == multiset(s)
    requires s != []
    ensures r != [] && r[0] in s
  {
    assert |r| == |multiset(r)| == |multiset(s)| == |s|;
    assert r[0] in multiset(r);
  }

  /** Taking the same element out of two permutations of each other leaves two
      permutations of each other. */
  lemma PermutationTail<T>(s: seq<T>, r: seq<T>, k: nat)
    requires multiset(r) == multiset(s)
    requires k < |s| && r != [] && s[k] == r[0]
    ensures multiset(r[1..]) == multiset(s[..k] + s[k + 1..])
  {
    assert s == s[..k] + [s[k]] + s[k + 1..];
    assert r == [r[0]] + r[1..];
    assert multiset(r[1..]) == multiset(r) - multiset{r[0]};
  }

  lemma ModOfSmaller(k: nat, n: nat)
    requires k < n
    ensures k % n == k
  {
  }

  /** A duplicate-free list holds each value at most once. */
  lemma {:induction false} NoDuplicatesCount<T>(s: seq<T>, v: T)
    requires NoDuplicates(s)
    ensures multiset(s)[v] <= 1
    decreases |s|
  {
    if s != [] {
      assert s == [s[0]] + s[1..];
      NoDuplicatesCount(s[1..], v);
      if s[0] == v {
        assert v !in s[1..];
      }
    }
  }

  /** Reordering a duplicate-free list leaves it duplicate-free. */
  lemma PermutationKeepsNoDuplicates<T>(s: seq<T>, r: seq<T>)
    requires multiset(r) == multiset(s)
    requires NoDuplicates(s)
    ensures NoDuplicates(r)
  {
    forall i, j | 0 <= i < j < |r|
      ensures r[i] != r[j]
    {
      if r[i] == r[j] {
        assert r == r[..j] + [r[j]] + r[j + 1..];
        assert r[i] in r[..j];
        assert multiset(r)[r[i]] >= 2;
        NoDuplicatesCount(s, r[i]);
        assert false;
      }
    }
  }

  /** Removing a value from a duplicate-free list removes it entirely, keeps
      every other value and leaves the list duplicate-free. */
  lemma RemoveFirstOfNoDuplicates<T>(s: seq<T>, x: T)
    requires x in s
    requires NoDuplicates(s)
    ensures NoDuplicates(RemoveFirst(s, x))
    ensures x !in RemoveFirst(s, x)
    ensures forall y :: y in RemoveFirst(s, x) <==> y in s && y != x
  {
    var r := RemoveFirst(s, x);
    NoDuplicatesCount(s, x);
    assert multiset(r)[x] == 0;
    forall i, j | 0 <= i < j < |r|
      ensures r[i] != r[j]
    {
      var k := FirstIndex(s, x);
      var i' := if i < k then i else i + 1;
      var j' := if j < k then j else j + 1;
      assert r[i] == s[i'] && r[j] == s[j'];
    }
  }
}
