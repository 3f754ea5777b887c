/** Sequence helpers shared by the grouping, piece and board models. */
module Seqs {

  /** No element occurs twice. */
  predicate NoDup<T(==)>(s: seq<T>) {
    forall i, j :: 0 <= i < j < |s| ==> s[i] != s[j]
  }

  /** Concatenation of a sequence of sequences, in order. */
  function Flatten<T>(ss: seq<seq<T>>): seq<T> {
    if |ss| == 0 then [] else ss[0] + Flatten(ss[1..])
  }

  /** The elements of `s` that do not occur in `drop`, in their original order. */
  function Without<T(==,!new)>(s: seq<T>, drop: seq<T>): (r: seq<T>)
    ensures forall x :: x in r <==> x in s && x !in drop
    ensures |r| <= |s|
    ensures forall x :: x in s && x in drop ==> |r| < |s|
    ensures NoDup(s) ==> NoDup(r)
  {
    if |s| == 0 then []
    else
      var rest := Without(s[1..], drop);
      assert forall x :: x in s[1..] ==> x in s;
      if s[0] in drop then rest else [s[0]] + rest
  }

  /** The non-empty members of `ss`, in order; dropping empty sequences does
      not change the concatenation. */
  function NonEmpty<T(!new)>(ss: seq<seq<T>>): (r: seq<seq<T>>)
    ensures forall s :: s in r <==> s in ss && |s| > 0
    ensures Flatten(r) == Flatten(ss)
  {
    if |ss| == 0 then []
    else
      var rest := NonEmpty(ss[1..]);
      assert forall s :: s in ss[1..] ==> s in ss;
      assert forall s :: s in ss ==> s == ss[0] || s in ss[1..];
      if |ss[0]| > 0 then [ss[0]] + rest else rest
  }

  lemma {:induction false} FlattenAppend<T>(a: seq<seq<T>>, b: seq<seq<T>>)
    ensures Flatten(a + b) == Flatten(a) + Flatten(b)
  {
    if |a| == 0 {
      assert a + b == b;
    } else {
      assert (a + b)[1..] == a[1..] + b;
      FlattenAppend(a[1..], b);
    }
  }

  /** Flattening one more entry appends it. */
  lemma FlattenPrefix<T>(ss: seq<seq<T>>, k: nat)
    requires 0 < k <= |ss|
    ensures Flatten(ss[..k]) == Flatten(ss[..k - 1]) + ss[k - 1]
  {
    assert ss[..k] == ss[..k - 1] + [ss[k - 1]];
    FlattenAppend(ss[..k - 1], [ss[k - 1]]);
    assert Flatten([ss[k - 1]]) == ss[k - 1] + Flatten([]);
  }

  /** Replacing the member at index `i` of `ss` by `x` swaps the contribution of
      `ss[i]` to the concatenation's multiset for that of `x`. */
  lemma {:induction false} FlattenUpdate<T>(ss: seq<seq<T>>, i: nat, x: seq<T>)
    requires i < |ss|
    ensures multiset(Flatten(ss[i := x])) + multiset(ss[i]) == multiset(Flatten(ss)) + multiset(x)
  {
    var t := ss[i := x];
    assert Flatten(t) == t[0] + Flatten(t[1..]);
    assert Flatten(ss) == ss[0] + Flatten(ss[1..]);
    if i == 0 {
      assert t[1..] == ss[1..];
    } else {
      assert t[1..] == ss[1..][i - 1 := x];
      assert t[0] == ss[0] && ss[1..][i - 1] == ss[i];
      FlattenUpdate(ss[1..], i - 1, x);
      var a, b := multiset(Flatten(t[1..])), multiset(Flatten(ss[1..]));
      assert multiset(Flatten(t)) == multiset(ss[0]) + a;
      assert multiset(Flatten(ss)) == multiset(ss[0]) + b;
      MultisetRegroup(multiset(ss[0]), a, b, multiset(ss[i]), multiset(x));
    }
  }

  /** Adding the same multiset on both sides of an equation. */
  lemma MultisetRegroup<T>(c: multiset<T>, a: multiset<T>, b: multiset<T>, s: multiset<T>, x: multiset<T>)
    requires a + s == b + x
    ensures (c + a) + s == (c + b) + x
  {
    forall p
      ensures ((c + a) + s)[p] == ((c + b) + x)[p]
    {
      assert (a + s)[p] == (b + x)[p];
    }
  }

  /** Cancelling a multiset added on both sides of an equation. */
  lemma MultisetCancel<T>(m0: multiset<T>, m1: multiset<T>, g: multiset<T>, mv: multiset<T>)
    requires m1 + g == m0 + (g + mv)
    ensures m1 == m0 + mv
  {
    forall p
      ensures m1[p] == (m0 + mv)[p]
    {
      assert (m1 + g)[p] == (m0 + (g + mv))[p];
    }
  }

  /** Every element of a member of `ss` occurs in the concatenation. */
  lemma {:induction false} InFlatten<T>(ss: seq<seq<T>>, i: nat, x: T)
    requires i < |ss| && x in ss[i]
    ensures x in Flatten(ss)
  {
    if i > 0 {
      InFlatten(ss[1..], i - 1, x);
    }
  }

  /** In a sequence without duplicates every element occurs at most once. */
  lemma {:induction false} NoDupCount<T>(s: seq<T>, x: T)
    requires NoDup(s)
    ensures multiset(s)[x] <= 1
  {
    if |s| > 0 {
      assert s == [s[0]] + s[1..];
      assert x == s[0] ==> x !in s[1..];
      NoDupCount(s[1..], x);
    }
  }

  /** Having no duplicates depends only on the multiset of elements. */
  lemma NoDupFromMultiset<T>(a: seq<T>, b: seq<T>)
    requires NoDup(a) && multiset(a) == multiset(b)
    ensures NoDup(b)
  {
    forall i, j | 0 <= i < j < |b|
      ensures b[i] != b[j]
    {
      if b[i] == b[j] {
        var x := b[i];
        assert b == b[..j] + b[j..];
        assert x in b[..j];
        assert x in b[j..];
        assert multiset(b)[x] == multiset(b[..j])[x] + multiset(b[j..])[x];
        NoDupCount(a, x);
      }
    }
  }

  /** Members of a duplicate-free concatenation are duplicate-free and
      pairwise disjoint. */
  lemma {:induction false} FlattenNoDup<T>(ss: seq<seq<T>>)
    requires NoDup(Flatten(ss))
    ensures forall i :: 0 <= i < |ss| ==> NoDup(ss[i])
    ensures forall i, j, x :: 0 <= i < |ss| && 0 <= j < |ss| && x in ss[i] && x in ss[j] ==> i == j
  {
    if |ss| > 0 {
      var f := Flatten(ss);
      assert f == ss[0] + Flatten(ss[1..]);
      assert NoDup(ss[0]) by {
        forall a, b | 0 <= a < b < |ss[0]| ensures ss[0][a] != ss[0][b] {
          assert f[a] == ss[0][a] && f[b] == ss[0][b];
        }
      }
      assert NoDup(Flatten(ss[1..])) by {
        forall a, b | 0 <= a < b < |Flatten(ss[1..])|
          ensures Flatten(ss[1..])[a] != Flatten(ss[1..])[b]
        {
          assert f[|ss[0]| + a] == Flatten(ss[1..])[a];
          assert f[|ss[0]| + b] == Flatten(ss[1..])[b];
        }
      }
      FlattenNoDup(ss[1..]);
      var rest := Flatten(ss[1..]);
      forall a, b | 0 <= a < |ss[0]| && 0 <= b < |rest|
        ensures ss[0][a] != rest[b]
      {
        assert f[a] == ss[0][a] && f[|ss[0]| + b] == rest[b];
      }
      forall j, x | 0 < j < |ss| && x in ss[j]
        ensures x !in ss[0]
      {
        InFlatten(ss[1..], j - 1, x);
      }
      forall i, j, x | 0 <= i < |ss| && 0 <= j < |ss| && x in ss[i] && x in ss[j]
        ensures i == j
      {
        if i > 0 && j > 0 {
          assert ss[i] == ss[1..][i - 1] && ss[j] == ss[1..][j - 1];
        }
      }
    }
  }
}
