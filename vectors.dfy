/**
 The vector operations the generator relies on, over sequences:
 `swap_remove`, `remove`, `extend` of a filtered copy, and counting.
 */
module Vectors {

  /** No element occurs twice. */
  predicate NoDup<T(==)>(s: seq<T>)
  {
    forall i, j :: 0 <= i < j < |s| ==> s[i] != s[j]
  }

  lemma NoDupAppend<T>(a: seq<T>, b: seq<T>)
    requires NoDup(a) && NoDup(b)
    requires forall x :: x in a ==> x !in b
    ensures NoDup(a + b)
  {
    forall i, j | 0 <= i < j < |a + b| ensures (a + b)[i] != (a + b)[j] {
      if j < |a| {
      } else if i >= |a| {
        assert (a + b)[i] == b[i - |a|] && (a + b)[j] == b[j - |a|];
      } else {
        assert (a + b)[i] in a && (a + b)[j] in b;
      }
    }
  }

  /** Cutting `a + [x] + m + t` around `x` gives back `a` and `m + t`. */
  lemma SplitAround<T>(a: seq<T>, x: T, m: seq<T>, t: seq<T>)
    ensures |a| < |a + [x] + m + t|
    ensures (a + [x] + m + t)[..|a|] == a && (a + [x] + m + t)[|a| + 1..] == m + t
  {
    var s := a + [x] + m + t;
    assert s[..|a|] == a;
    assert s[|a| + 1..] == m + t;
  }

  /** The slices of `s` on either side of position `i`, with `b` a later cut. */
  lemma SliceAround<T>(s: seq<T>, i: nat, b: nat)
    requires i < b <= |s|
    ensures s[..b] == s[..i] + [s[i]] + s[i + 1..b]
    ensures s[i..] == [s[i]] + (s[i + 1..b] + s[b..])
  {
  }

  lemma AppendAssoc<T>(a: seq<T>, b: seq<T>, c: seq<T>)
    ensures (a + b) + c == a + (b + c)
  {
  }

  /** A non-empty sequence is its prefix without the last element, then that element. */
  lemma ButLast<T>(s: seq<T>)
    requires s != []
    ensures s == s[..|s| - 1] + [s[|s| - 1]]
  {
  }

  /**
   `Vec::swap_remove(i)`: element `i` leaves the vector and the last element
   takes its place; the vector loses exactly one occurrence of `s[i]`.
   */
  function SwapRemove<T>(s: seq<T>, i: nat): (r: seq<T>)
    requires i < |s|
    ensures |r| == |s| - 1
    ensures multiset(r) + multiset{s[i]} == multiset(s)
  {
    if i == |s| - 1 then
      assert s == s[..i] + [s[i]];
      s[..i]
    else
      assert s == s[..i] + [s[i]] + s[i + 1..|s| - 1] + [s[|s| - 1]];
      s[..i] + [s[|s| - 1]] + s[i + 1..|s| - 1]
  }

  /** On a vector without duplicates, `swap_remove` removes exactly the chosen element. */
  lemma SwapRemoveDistinct<T>(s: seq<T>, i: nat)
    requires i < |s| && NoDup(s)
    ensures NoDup(SwapRemove(s, i))
    ensures forall x :: x in SwapRemove(s, i) <==> x in s && x != s[i]
  {
    var r := SwapRemove(s, i);
    var n := |s| - 1;
    // position in `s` of each position of `r`
    var from := (k: int) => if k == i then n else k;
    assert forall k :: 0 <= k < |r| ==> r[k] == s[from(k)];
    forall a, b | 0 <= a < b < |r| ensures r[a] != r[b] {
      assert from(a) != from(b);
    }
    forall x ensures x in r <==> x in s && x != s[i] {
      if x in r {
        var k :| 0 <= k < |r| && r[k] == x;
        assert s[from(k)] == x && from(k) != i;
      }
      if x in s && x != s[i] {
        var j :| 0 <= j < |s| && s[j] == x;
        if j == n {
          assert r[i] == x;
        } else {
          assert r[j] == x;
        }
      }
    }
  }

  /** The elements of `s` that are not in `xs`, in order: `s.filter(|v| !xs.contains(v))`. */
  function Without<T(==, !new)>(s: seq<T>, xs: seq<T>): (r: seq<T>)
    ensures |r| <= |s|
    ensures forall x :: x in r <==> x in s && x !in xs
    ensures NoDup(s) ==> NoDup(r)
  {
    if s == [] then []
    else
      var rest := Without(s[..|s| - 1], xs);
      var last := s[|s| - 1];
      assert s == s[..|s| - 1] + [last];
      if last in xs then rest
      else
        assert NoDup(s) ==> NoDup(s[..|s| - 1]) && last !in rest;
        rest + [last]
  }

  /** How many entries of `s` (counted with repetition) occur in `vs`. */
  function CountIn<T(==)>(s: seq<T>, vs: seq<T>): nat
  {
    if s == [] then 0
    else CountIn(s[..|s| - 1], vs) + (if s[|s| - 1] in vs then 1 else 0)
  }

  lemma {:induction false} CountInAppend<T>(a: seq<T>, b: seq<T>, vs: seq<T>)
    ensures CountIn(a + b, vs) == CountIn(a, vs) + CountIn(b, vs)
  {
    if b != [] {
      assert (a + b)[..|a + b| - 1] == a + b[..|b| - 1];
      CountInAppend(a, b[..|b| - 1], vs);
    } else {
      assert a + b == a;
    }
  }

  /** Entries outside `vs` add nothing to the count. */
  lemma {:induction false} CountInDisjoint<T>(s: seq<T>, vs: seq<T>)
    requires forall x :: x in s ==> x !in vs
    ensures CountIn(s, vs) == 0
  {
    if s != [] {
      CountInDisjoint(s[..|s| - 1], vs);
    }
  }

  /** The count depends only on which values `vs` holds. */
  lemma {:induction false} CountInSameMembers<T>(s: seq<T>, vs: seq<T>, ws: seq<T>)
    requires forall x :: x in vs <==> x in ws
    ensures CountIn(s, vs) == CountIn(s, ws)
  {
    if s != [] {
      CountInSameMembers(s[..|s| - 1], vs, ws);
    }
  }
}
