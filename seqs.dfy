/** Sequence facts behind Python's list operations: `x in xs`, `xs.remove(x)`, `xs.append(x)`. */
module Seqs {

  /** No two positions hold equal elements. */
  predicate Distinct<T(==)>(s: seq<T>)
  {
    forall i, j :: 0 <= i < j < |s| ==> s[i] != s[j]
  }

  /** Concatenation is associative. */
  lemma {:induction false} AppendAssoc<T>(p: seq<T>, q: seq<T>, r: seq<T>)
    ensures (p + q) + r == p + (q + r)
  {
    assert forall i :: 0 <= i < |p + q + r| ==> ((p + q) + r)[i] == (p + (q + r))[i];
  }

  /** A non-empty sequence is its first element followed by the rest. */
  lemma {:induction false} HeadSplit<T>(s: seq<T>)
    requires s != []
    ensures s == [s[0]] + s[1..]
  {
  }

  /** A non-empty sequence is its front followed by its last element. */
  lemma {:induction false} LastSplit<T>(s: seq<T>)
    requires s != []
    ensures s == s[..|s| - 1] + [s[|s| - 1]]
  {
  }

  /** The position of the first occurrence of `x` in `s`. */
  function IndexOf<T(==)>(s: seq<T>, x: T): (i: nat)
    requires x in s
    ensures i < |s| && s[i] == x
    ensures x !in s[..i]
  {
    if s[0] == x then 0
    else
      assert x in s[1..];
      var k := IndexOf(s[1..], x);
      assert s[..k + 1] == [s[0]] + s[1..][..k];
      1 + k
  }

  /** Python's `list.remove(x)`: drop the first occurrence of `x`; a list without `x` is left as it is
      (Python raises there instead; every caller checks membership first). */
  function RemoveFirst<T(==)>(s: seq<T>, x: T): (r: seq<T>)
    ensures x !in s ==> r == s
    ensures x in s ==> r == s[..IndexOf(s, x)] + s[IndexOf(s, x) + 1..]
  {
    if s == [] then []
    else if s[0] == x then s[1..]
    else
      var t := RemoveFirst(s[1..], x);
      RemoveFirstCons(s, x, t);
      [s[0]] + t
  }

  /** One step of `RemoveFirst` past a head that is not `x`, given what the tail's contract says. */
  lemma {:induction false} RemoveFirstCons<T>(s: seq<T>, x: T, t: seq<T>)
    requires s != [] && s[0] != x
    requires x !in s[1..] ==> t == s[1..]
    requires x in s[1..] ==> t == s[1..][..IndexOf(s[1..], x)] + s[1..][IndexOf(s[1..], x) + 1..]
    ensures x !in s ==> [s[0]] + t == s
    ensures x in s ==> [s[0]] + t == s[..IndexOf(s, x)] + s[IndexOf(s, x) + 1..]
  {
    if x in s {
      assert x in s[1..];
      var k := IndexOf(s[1..], x);
      assert IndexOf(s, x) == 1 + k;
      ConsSlices(s, k);
    } else {
      assert s == [s[0]] + s[1..];
    }
  }

  /** Cutting position `k` out of the tail is cutting position `k + 1` out of the whole. */
  lemma {:induction false} ConsSlices<T>(s: seq<T>, k: nat)
    requires k + 1 < |s|
    ensures [s[0]] + (s[1..][..k] + s[1..][k + 1..]) == s[..k + 1] + s[k + 2..]
  {
    var a, b := s[1..][..k], s[1..][k + 1..];
    assert s[..k + 1] == [s[0]] + a;
    assert s[k + 2..] == b;
  }

  /** Removing an element that is present shortens the list by exactly one and takes out exactly one copy. */
  lemma {:induction false} RemoveFirstCounts<T>(s: seq<T>, x: T)
    requires x in s
    ensures |RemoveFirst(s, x)| == |s| - 1
    ensures multiset(RemoveFirst(s, x)) == multiset(s) - multiset{x}
  {
    var i := IndexOf(s, x);
    assert s == s[..i] + [x] + s[i + 1..];
    calc {
      multiset(s);
      multiset(s[..i]) + multiset{x} + multiset(s[i + 1..]);
      multiset(RemoveFirst(s, x)) + multiset{x};
    }
  }

  /** Taking an element out and appending it again keeps the same elements. */
  lemma {:induction false} RemoveFirstMovesLast<T>(s: seq<T>, x: T)
    requires x in s
    ensures multiset(RemoveFirst(s, x) + [x]) == multiset(s)
  {
    RemoveFirstCounts(s, x);
    assert x in multiset(s);
  }

  /** What is left after removing the first `x`: the elements before it, then the ones after it. */
  lemma {:induction false} RemoveFirstAt<T>(s: seq<T>, x: T, k: int)
    requires x in s && 0 <= k < |s| - 1
    ensures |RemoveFirst(s, x)| == |s| - 1
    ensures RemoveFirst(s, x)[k] == s[if k < IndexOf(s, x) then k else k + 1]
  {
  }

  /** Removing from a duplicate-free list keeps it duplicate-free and leaves no copy behind. */
  lemma {:induction false} RemoveFirstDistinct<T>(s: seq<T>, x: T)
    ensures Distinct(s) ==> Distinct(RemoveFirst(s, x)) && x !in RemoveFirst(s, x)
  {
    if Distinct(s) && x in s {
      var i := IndexOf(s, x);
      var r := RemoveFirst(s, x);
      RemoveFirstCounts(s, x);
      forall a, b | 0 <= a < b < |r| ensures r[a] != r[b] {
        RemoveFirstAt(s, x, a);
        RemoveFirstAt(s, x, b);
      }
      forall k | 0 <= k < |r| ensures r[k] != x {
        RemoveFirstAt(s, x, k);
      }
    }
  }

  /** Appending an absent element keeps a list duplicate-free. */
  lemma {:induction false} AppendDistinct<T>(s: seq<T>, x: T)
    ensures Distinct(s) && x !in s ==> Distinct(s + [x])
  {
    if Distinct(s) && x !in s {
      AppendDistinctStep(s, x);
    }
  }

  lemma {:induction false} AppendDistinctStep<T>(s: seq<T>, x: T)
    requires Distinct(s) && x !in s
    ensures Distinct(s + [x])
  {
    forall i, j | 0 <= i < j < |s + [x]| ensures (s + [x])[i] != (s + [x])[j] {
      if j == |s| {
        assert (s + [x])[i] == s[i];
      }
    }
  }

  /** Removing what was just appended gives the list back. */
  lemma {:induction false} RemoveFirstAppended<T>(s: seq<T>, x: T)
    requires x !in s
    ensures RemoveFirst(s + [x], x) == s
  {
    var t := s + [x];
    assert t[..|s|] == s;
    assert IndexOf(t, x) == |s|;
  }

  /** Removing the first `x` keeps every other element. */
  lemma {:induction false} RemoveFirstElements<T>(s: seq<T>, x: T)
    ensures forall y :: y in RemoveFirst(s, x) ==> y in s
    ensures forall y :: y in s && y != x ==> y in RemoveFirst(s, x)
  {
    if x in s {
      var i := IndexOf(s, x);
      var r := RemoveFirst(s, x);
      forall y | y in r ensures y in s {
        var k :| 0 <= k < |r| && r[k] == y;
        RemoveFirstAt(s, x, k);
      }
      forall y | y in s && y != x ensures y in r {
        var k :| 0 <= k < |s| && s[k] == y;
        RemoveFirstAt(s, x, if k < i then k else k - 1);
      }
    }
  }
}
