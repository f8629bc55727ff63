/**
 DER `SET OF` ordering (section 11.6 of X.690), as the CMS writer gets it: sort the encodings as
 octet strings, drop repeats.

 `Sorted` stands for `sort_unstable`; `SortedIsUnique` shows that any algorithm that returns an
 ordered permutation returns the same sequence, so nothing depends on which one it is.
 */
module DerSet {
  import opened Octets
  import Ber

  /** The order of octet slices: first difference decides, a prefix comes first. */
  predicate LexLe(a: octets, b: octets) {
    if a == [] then true
    else if b == [] then false
    else if a[0] != b[0] then a[0] < b[0]
    else LexLe(a[1..], b[1..])
  }

  /** The order section 11.6 of X.690 names: the shorter string is padded with zero octets. */
  predicate DerLe(a: octets, b: octets)
    decreases |a| + |b|
  {
    if a == [] && b == [] then true
    else
      var x: byte := if a == [] then 0 else a[0];
      var y: byte := if b == [] then 0 else b[0];
      if x != y then x < y
      else DerLe(if a == [] then a else a[1..], if b == [] then b else b[1..])
  }

  ghost predicate Ordered(xs: seq<octets>) {
    forall i, j :: 0 <= i < j < |xs| ==> LexLe(xs[i], xs[j])
  }

  ghost predicate StrictlyOrdered(xs: seq<octets>) {
    Ordered(xs) && forall i, j :: 0 <= i < j < |xs| ==> xs[i] != xs[j]
  }

  function Insert(x: octets, xs: seq<octets>): seq<octets> {
    if xs == [] || LexLe(x, xs[0]) then [x] + xs else [xs[0]] + Insert(x, xs[1..])
  }

  function Sorted(xs: seq<octets>): seq<octets> {
    if xs == [] then [] else Insert(xs[0], Sorted(xs[1..]))
  }

  /** Consecutive repeats removed. */
  function Deduped(xs: seq<octets>): seq<octets> {
    if |xs| <= 1 then xs
    else if xs[0] == xs[1] then Deduped(xs[1..])
    else [xs[0]] + Deduped(xs[1..])
  }

  lemma {:induction false} LexTotal(a: octets, b: octets)
    ensures LexLe(a, b) || LexLe(b, a)
    ensures LexLe(a, a)
    ensures LexLe(a, b) && LexLe(b, a) ==> a == b
  {
    if a != [] {
      if b != [] && a[0] == b[0] {
        LexTotal(a[1..], b[1..]);
        assert a == [a[0]] + a[1..] && b == [b[0]] + b[1..];
      } else {
        LexTotal(a[1..], a[1..]);
      }
    }
  }

  lemma {:induction false} LexTransitive(a: octets, b: octets, c: octets)
    requires LexLe(a, b) && LexLe(b, c)
    ensures LexLe(a, c)
  {
    if a != [] && a[0] == b[0] && b[0] == c[0] {
      LexTransitive(a[1..], b[1..], c[1..]);
    }
  }

  lemma {:induction false} InsertKeepsOrder(x: octets, xs: seq<octets>)
    requires Ordered(xs)
    ensures Ordered(Insert(x, xs))
    ensures multiset(Insert(x, xs)) == multiset{x} + multiset(xs)
  {
    if xs == [] {
    } else if LexLe(x, xs[0]) {
      forall j | 0 <= j < |xs|
        ensures LexLe(x, xs[j])
      {
        if j > 0 {
          LexTransitive(x, xs[0], xs[j]);
        }
      }
    } else {
      var rest := Insert(x, xs[1..]);
      InsertKeepsOrder(x, xs[1..]);
      LexTotal(x, xs[0]);
      assert xs == [xs[0]] + xs[1..];
      forall k | 0 <= k < |rest|
        ensures LexLe(xs[0], rest[k])
      {
        assert rest[k] in multiset(rest);
        if rest[k] != x {
          assert rest[k] in multiset(xs[1..]);
          assert rest[k] in xs[1..];
        }
      }
    }
  }

  /** Sorting gives an ordered permutation. */
  lemma {:induction false} SortedIsOrderedPermutation(xs: seq<octets>)
    ensures Ordered(Sorted(xs))
    ensures multiset(Sorted(xs)) == multiset(xs)
    ensures |Sorted(xs)| == |xs|
  {
    if xs != [] {
      SortedIsOrderedPermutation(xs[1..]);
      InsertKeepsOrder(xs[0], Sorted(xs[1..]));
      assert xs == [xs[0]] + xs[1..];
    }
    assert |multiset(Sorted(xs))| == |multiset(xs)|;
  }

  lemma OrderedHeadIsLeast(xs: seq<octets>, x: octets)
    requires Ordered(xs) && x in multiset(xs)
    ensures LexLe(xs[0], x)
  {
    assert x in xs;
    LexTotal(xs[0], xs[0]);
  }

  lemma RemoveHead(xs: seq<octets>)
    requires xs != []
    ensures multiset(xs[1..]) == multiset(xs) - multiset{xs[0]}
  {
    assert xs == [xs[0]] + xs[1..];
  }

  lemma OrderedHeadsAgree(xs: seq<octets>, ys: seq<octets>)
    requires xs != [] && Ordered(xs) && Ordered(ys) && multiset(xs) == multiset(ys)
    ensures ys != [] && xs[0] == ys[0]
  {
    assert |multiset(xs)| == |multiset(ys)| == |ys| == |xs|;
    assert xs[0] in multiset(xs) && ys[0] in multiset(ys);
    OrderedHeadIsLeast(xs, ys[0]);
    OrderedHeadIsLeast(ys, xs[0]);
    LexTotal(xs[0], ys[0]);
  }

  /** There is only one ordered permutation. */
  lemma {:induction false} OrderedPermutationsAgree(xs: seq<octets>, ys: seq<octets>)
    requires Ordered(xs) && Ordered(ys) && multiset(xs) == multiset(ys)
    ensures xs == ys
  {
    hide LexLe;
    if xs == [] {
      assert |multiset(ys)| == 0;
    } else {
      OrderedHeadsAgree(xs, ys);
      RemoveHead(xs);
      RemoveHead(ys);
      OrderedPermutationsAgree(xs[1..], ys[1..]);
      assert xs == [xs[0]] + xs[1..] && ys == [ys[0]] + ys[1..];
    }
  }

  lemma SortedIsUnique(xs: seq<octets>, ys: seq<octets>)
    requires Ordered(ys) && multiset(ys) == multiset(xs)
    ensures ys == Sorted(xs)
  {
    SortedIsOrderedPermutation(xs);
    OrderedPermutationsAgree(ys, Sorted(xs));
  }

  /** On an ordered sequence, dropping consecutive repeats drops every repeat and no element. */
  lemma {:induction false} DedupedIsStrict(xs: seq<octets>)
    requires Ordered(xs)
    ensures StrictlyOrdered(Deduped(xs))
    ensures forall x :: x in Deduped(xs) <==> x in xs
    ensures xs != [] ==> Deduped(xs) != [] && Deduped(xs)[0] == xs[0]
  {
    if |xs| > 1 {
      DedupedIsStrict(xs[1..]);
      assert xs == [xs[0]] + xs[1..];
      var rest := Deduped(xs[1..]);
      if xs[0] != xs[1] {
        forall k | 0 <= k < |rest|
          ensures LexLe(xs[0], rest[k]) && xs[0] != rest[k]
        {
          assert rest[k] in xs[1..];
          var m :| 0 <= m < |xs[1..]| && xs[1..][m] == rest[k];
          LexTotal(xs[1], xs[1]);
          assert LexLe(xs[1], xs[m + 1]);
          LexTotal(xs[0], xs[1]);
        }
      }
    }
  }

  /** Sorting and dropping repeats: a strictly ordered sequence of exactly the elements given. */
  lemma SetOfElements(xs: seq<octets>)
    ensures StrictlyOrdered(Deduped(Sorted(xs)))
    ensures forall x :: x in Deduped(Sorted(xs)) <==> x in xs
    ensures xs != [] ==> Deduped(Sorted(xs)) != []
  {
    SortedIsOrderedPermutation(xs);
    DedupedIsStrict(Sorted(xs));
    forall x
      ensures x in Sorted(xs) <==> x in xs
    {
      assert x in multiset(Sorted(xs)) <==> x in multiset(xs);
    }
  }

  lemma {:induction false} OrdersAgreeApart(a: octets, b: octets)
    requires !(a <= b) && !(b <= a)
    ensures LexLe(a, b) <==> DerLe(a, b)
  {
    if a[0] == b[0] {
      assert a == [a[0]] + a[1..] && b == [b[0]] + b[1..];
      OrdersAgreeApart(a[1..], b[1..]);
    }
  }

  lemma {:induction false} DerReflexive(a: octets)
    ensures DerLe(a, a)
  {
    if a != [] {
      DerReflexive(a[1..]);
    }
  }

  /** No complete TLV starts another. */
  lemma TlvPrefixFree(a: octets, b: octets)
    requires Ber.IsOneTlv(a) && Ber.IsOneTlv(b) && a <= b
    ensures a == b
  {
    assert b == a + b[|a|..];
    Ber.ParseExtends(a, b[|a|..]);
  }

  /** For encodings of values, slice order is the order DER demands. */
  lemma SliceOrderIsDerOrder(a: octets, b: octets)
    requires Ber.IsOneTlv(a) && Ber.IsOneTlv(b)
    ensures LexLe(a, b) <==> DerLe(a, b)
  {
    if a <= b {
      TlvPrefixFree(a, b);
      DerReflexive(a);
      LexTotal(a, a);
    } else if b <= a {
      TlvPrefixFree(b, a);
    } else {
      OrdersAgreeApart(a, b);
    }
  }
}
