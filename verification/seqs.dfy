/**
 Sequence helpers that stand in for the list utilities the reaction parser
 relies on: membership, position lookup, first-seen registration and sums.
 */
module Seqs {

  /** No element occurs twice. */
  predicate NoDuplicates<T(==)>(s: seq<T>)
  {
    forall i, j :: 0 <= i < j < |s| ==> s[i] != s[j]
  }

  /** Every element of `s` is an element of `pool`. */
  predicate AllIn<T(==)>(s: seq<T>, pool: seq<T>)
  {
    forall k :: 0 <= k < |s| ==> s[k] in pool
  }

  /** Position of the first occurrence of `x` in `s` (the `getVecPos` lookup). */
  function IndexOf<T(==)>(s: seq<T>, x: T): (i: nat)
    requires x in s
    ensures i < |s| && s[i] == x
    ensures forall k :: 0 <= k < i ==> s[k] != x
  {
    if s[0] == x then 0 else 1 + IndexOf(s[1..], x)
  }

  /** Position of the last occurrence of `x` in `s`. */
  function LastIndexOf<T(==)>(s: seq<T>, x: T): (i: nat)
    requires x in s
    ensures i < |s| && s[i] == x
    ensures forall k :: i < k < |s| ==> s[k] != x
  {
    if s[|s| - 1] == x then |s| - 1
    else
      assert x in s[..|s| - 1] by {
        var k :| 0 <= k < |s| && s[k] == x;
        assert s[..|s| - 1][k] == x;
      }
      LastIndexOf(s[..|s| - 1], x)
  }

  /** In a list without duplicates, the position of its `i`-th element is `i`. */
  lemma IndexOfDistinct<T>(s: seq<T>, i: nat)
    requires NoDuplicates(s) && i < |s|
    ensures IndexOf(s, s[i]) == i
  {
  }

  /** Appending an element does not move the elements already present. */
  lemma {:induction false} IndexOfAppend<T>(s: seq<T>, y: T, x: T)
    requires x in s
    ensures IndexOf(s + [y], x) == IndexOf(s, x)
  {
    if s[0] != x {
      assert (s + [y])[1..] == s[1..] + [y];
      IndexOfAppend(s[1..], y, x);
    }
  }

  /**
   Registers `x` in the species list `u`: appended when it is new, the list is
   left alone when it is already present.
   */
  function Register<T(==,!new)>(u: seq<T>, x: T): (u': seq<T>)
    ensures x in u'
    ensures |u| <= |u'| && u'[..|u|] == u
    ensures forall y :: y in u' <==> y in u || y == x
    ensures x in u ==> u' == u
    ensures NoDuplicates(u) ==> NoDuplicates(u')
  {
    if x in u then u else u + [x]
  }

  /**
   `u` lists the distinct elements of `s` in order of their first appearance
   in `s`: no repeats, the same members, and `u[i]` is first seen in `s`
   before `u[j]` whenever `i < j`.
   */
  ghost predicate FirstSeen<T(!new)>(u: seq<T>, s: seq<T>)
  {
    && NoDuplicates(u)
    && (forall x :: x in u <==> x in s)
    && (forall i, j :: 0 <= i < j < |u| ==> u[i] in s && u[j] in s && IndexOf(s, u[i]) < IndexOf(s, u[j]))
  }

  /** Registering the next scanned element keeps the first-seen order. */
  lemma FirstSeenRegister<T(!new)>(u: seq<T>, s: seq<T>, x: T)
    requires FirstSeen(u, s)
    ensures FirstSeen(Register(u, x), s + [x])
  {
    var u' := Register(u, x);
    forall y | y in s
      ensures IndexOf(s + [y], y) == IndexOf(s, y) && IndexOf(s + [x], y) == IndexOf(s, y)
    {
      IndexOfAppend(s, x, y);
      IndexOfAppend(s, y, y);
    }
    if x !in u {
      assert x !in s;
      assert IndexOf(s + [x], x) == |s| by {
        assert (s + [x])[|s|] == x;
      }
      forall i, j | 0 <= i < j < |u'|
        ensures u'[i] in s + [x] && u'[j] in s + [x] && IndexOf(s + [x], u'[i]) < IndexOf(s + [x], u'[j])
      {
        assert u'[i] == u[i];
        if j < |u| {
          assert u'[j] == u[j];
        } else {
          assert u'[j] == x;
        }
      }
    }
  }

  /** Registers every element of `xs` in order (the registration loop). */
  function RegisterAll<T(==,!new)>(u: seq<T>, xs: seq<T>): (u': seq<T>)
    ensures |u| <= |u'| && u'[..|u|] == u
    ensures NoDuplicates(u) ==> NoDuplicates(u')
    decreases |xs|
  {
    if |xs| == 0 then u
    else
      var r := RegisterAll(Register(u, xs[0]), xs[1..]);
      assert r[..|u|] == r[..|Register(u, xs[0])|][..|u|];
      r
  }

  /** Registering `xs` and then `ys` is registering `xs + ys`. */
  lemma {:induction false} RegisterAllAppend<T(!new)>(u: seq<T>, xs: seq<T>, ys: seq<T>)
    ensures RegisterAll(u, xs + ys) == RegisterAll(RegisterAll(u, xs), ys)
    decreases |xs|
  {
    if |xs| == 0 {
      assert xs + ys == ys;
    } else {
      assert (xs + ys)[1..] == xs[1..] + ys;
      RegisterAllAppend(Register(u, xs[0]), xs[1..], ys);
    }
  }

  /**
   Registering a scan element by element lists its distinct elements in
   first-seen order.
   */
  lemma {:induction false} FirstSeenRegisterAll<T(!new)>(u: seq<T>, s: seq<T>, xs: seq<T>)
    requires FirstSeen(u, s)
    ensures FirstSeen(RegisterAll(u, xs), s + xs)
    decreases |xs|
  {
    if |xs| == 0 {
      assert s + xs == s;
    } else {
      var s' := s + [xs[0]];
      assert s' + xs[1..] == s + xs;
      FirstSeenRegister(u, s, xs[0]);
      FirstSeenRegisterAll(Register(u, xs[0]), s', xs[1..]);
    }
  }

  /** The species list built from scratch is the first-seen list of the scan. */
  lemma FirstSeenFromScratch<T(!new)>(xs: seq<T>)
    ensures FirstSeen(RegisterAll([], xs), xs)
  {
    FirstSeenRegisterAll([], [], xs);
    assert [] + xs == xs;
  }

  /** Total of a sequence of reals, accumulated left to right. */
  function Sum(s: seq<real>): real
  {
    if |s| == 0 then 0.0 else Sum(s[..|s| - 1]) + s[|s| - 1]
  }

  /** The total of the first element alone is that element. */
  lemma SumFirst(s: seq<real>)
    requires |s| > 0
    ensures Sum(s[..1]) == s[0]
  {
    assert s[..1][..0] == [];
  }

  /** A trailing zero does not change the total. */
  lemma SumTrailingZero(s: seq<real>, n: nat)
    requires n < |s| && |s| == n + 1 && s[n] == 0.0
    ensures Sum(s) == Sum(s[..n])
  {
  }
}
