/** Sequence operations the source gets from `System.Collections.Generic.List`. */
module Seqs {
  import opened Common

  ghost predicate Distinct<T>(s: seq<T>) {
    forall i, j :: 0 <= i < j < |s| ==> s[i] != s[j]
  }

  /** `List.Remove(x)`: drops the first occurrence of `x`, if any. */
  function RemoveFirst<T(==)>(s: seq<T>, x: T): (r: seq<T>)
    ensures x !in s ==> r == s
    ensures x in s ==> |r| == |s| - 1
    ensures forall y :: y in r ==> y in s
    ensures forall y :: y in s && y != x ==> y in r
  {
    if s == [] then []
    else if s[0] == x then s[1..]
    else [s[0]] + RemoveFirst(s[1..], x)
  }

  /** The elements of `s` that are not in `xs`, in their original order. */
  function Without<T>(s: seq<T>, xs: set<T>): (r: seq<T>)
    ensures forall y :: y in r ==> y in s && y !in xs
    ensures forall y :: y in s && y !in xs ==> y in r
    ensures |r| <= |s|
    ensures Distinct(s) ==> Distinct(r)
  {
    if s == [] then []
    else (if s[0] in xs then [] else [s[0]]) + Without(s[1..], xs)
  }

  lemma {:induction false} WithoutNothing<T>(s: seq<T>)
    ensures Without(s, {}) == s
  {
    if s != [] {
      WithoutNothing(s[1..]);
    }
  }

  /** Excluding a value that does not occur changes nothing. */
  lemma {:induction false} WithoutAbsent<T>(s: seq<T>, xs: set<T>, x: T)
    requires x !in s
    ensures Without(s, xs + {x}) == Without(s, xs)
  {
    if s != [] {
      WithoutAbsent(s[1..], xs, x);
    }
  }

  /** Exclusions that agree on the elements of `s` give the same sequence. */
  lemma {:induction false} WithoutAgree<T>(s: seq<T>, xs: set<T>, ys: set<T>)
    requires forall y :: y in s ==> (y in xs <==> y in ys)
    ensures Without(s, xs) == Without(s, ys)
  {
    if s != [] {
      assert forall y :: y in s[1..] ==> y in s;
      WithoutAgree(s[1..], xs, ys);
    }
  }

  /** On a duplicate-free sequence, `List.Remove` of one more value is the same as excluding it:
      repeated `Remove` calls compute the set difference, whatever their order. */
  lemma {:induction false} RemoveFirstWithout<T>(s: seq<T>, xs: set<T>, x: T)
    requires Distinct(s)
    ensures RemoveFirst(Without(s, xs), x) == Without(s, xs + {x})
  {
    if s != [] {
      var a, t := s[0], s[1..];
      DistinctTail(s);
      var w := Without(t, xs);
      if a in xs {
        assert Without(s, xs) == w;
        assert Without(s, xs + {x}) == Without(t, xs + {x});
        RemoveFirstWithout(t, xs, x);
      } else if a == x {
        assert Without(s, xs) == [a] + w;
        assert ([a] + w)[1..] == w;
        assert RemoveFirst([a] + w, x) == w;
        assert Without(s, xs + {x}) == Without(t, xs + {x});
        WithoutAbsent(t, xs, x);
      } else {
        assert Without(s, xs) == [a] + w;
        assert ([a] + w)[1..] == w;
        assert RemoveFirst([a] + w, x) == [a] + RemoveFirst(w, x);
        assert Without(s, xs + {x}) == [a] + Without(t, xs + {x});
        RemoveFirstWithout(t, xs, x);
      }
    }
  }

  lemma DistinctTail<T>(s: seq<T>)
    requires s != [] && Distinct(s)
    ensures Distinct(s[1..]) && s[0] !in s[1..]
  {
    forall i, j | 0 <= i < j < |s[1..]| ensures s[1..][i] != s[1..][j] {
      assert s[1..][i] == s[i + 1] && s[1..][j] == s[j + 1];
    }
  }

  /** The distinct elements of `s`, each at its first occurrence. */
  function Dedup<T(==)>(s: seq<T>): (r: seq<T>)
    ensures Distinct(r)
    ensures forall x :: x in r ==> x in s
    ensures forall x :: x in s ==> x in r
  {
    if s == [] then []
    else
      var d := Dedup(s[..|s| - 1]);
      var x := s[|s| - 1];
      assert s == s[..|s| - 1] + [x];
      if x in d then d else d + [x]
  }

  /** A list without duplicates is kept as it is. */
  lemma {:induction false} DedupOfDistinct<T>(s: seq<T>)
    requires Distinct(s)
    ensures Dedup(s) == s
  {
    if s != [] {
      var p := s[..|s| - 1];
      assert Distinct(p);
      DedupOfDistinct(p);
      assert s[|s| - 1] !in p;
      assert s == p + [s[|s| - 1]];
    }
  }

  /** The index of the first element satisfying `p` (`List.Find`, `FirstOrDefault`). */
  function FirstIndex<T>(s: seq<T>, p: T -> bool): (r: Option<nat>)
    ensures r.None? <==> forall i :: 0 <= i < |s| ==> !p(s[i])
    ensures r.Some? ==> r.value < |s| && p(s[r.value]) && forall i :: 0 <= i < r.value ==> !p(s[i])
  {
    if s == [] then None
    else if p(s[0]) then Some(0)
    else match FirstIndex(s[1..], p)
      case None => None
      case Some(k) => Some(k + 1)
  }

  /** Removes the first element satisfying `p` (`List.Remove` under an equality given by `p`). */
  function RemoveFirstWhere<T>(s: seq<T>, p: T -> bool): (r: seq<T>)
    ensures forall x :: x in r ==> x in s
    ensures forall x :: x in s && !p(x) ==> x in r
    ensures |r| == if FirstIndex(s, p).Some? then |s| - 1 else |s|
  {
    match FirstIndex(s, p)
    case None => s
    case Some(k) =>
      assert forall x :: x in s && !p(x) ==> x in s[..k] + s[k + 1..] by {
        assert s == s[..k] + [s[k]] + s[k + 1..];
      }
      s[..k] + s[k + 1..]
  }

  /** Removing the first occurrence of `x` from a sequence whose prefix `a` does not hold it takes
      out exactly the `x` that follows `a`. */
  lemma {:induction false} RemoveFirstAfter<T>(a: seq<T>, x: T, b: seq<T>)
    requires x !in a
    ensures RemoveFirst(a + [x] + b, x) == a + b
  {
    if a == [] {
      assert a + [x] + b == [x] + b;
    } else {
      assert (a + [x] + b)[1..] == a[1..] + [x] + b;
      RemoveFirstAfter(a[1..], x, b);
      assert a + b == [a[0]] + (a[1..] + b);
    }
  }

  /** The elements of a sequence, as a set. */
  function Elements<T>(s: seq<T>): set<T> {
    set x | x in s
  }
}
