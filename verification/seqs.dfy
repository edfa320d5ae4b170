/** Sequence combinators for the list-building loops of the generator.

    `ForRange(n, f)` is the list a Python loop `for i in range(n): out += f(i)`
    leaves behind; nested loops are nested `ForRange`s. `Count` counts the
    elements satisfying a predicate. The lemmas below break counts, lengths,
    membership and distinctness of a `ForRange` down to its pieces. */
module Seqs {
  import opened Wrappers

  /** f(0) + f(1) + ... + f(n-1) */
  function ForRange<T>(n: nat, f: nat -> seq<T>): seq<T>
  {
    if n == 0 then [] else ForRange(n - 1, f) + f(n - 1)
  }

  function Count<T>(s: seq<T>, P: T -> bool): nat
  {
    if |s| == 0 then 0 else Count(s[..|s| - 1], P) + (if P(s[|s| - 1]) then 1 else 0)
  }

  /** No element occurs twice. */
  predicate NoDup<T(==)>(s: seq<T>)
  {
    forall i, j :: 0 <= i < j < |s| ==> s[i] != s[j]
  }

  lemma {:induction false} CountAppend<T>(a: seq<T>, b: seq<T>, P: T -> bool)
    ensures Count(a + b, P) == Count(a, P) + Count(b, P)
    decreases |b|
  {
    if |b| == 0 {
      assert a + b == a;
    } else {
      var b' := b[..|b| - 1];
      assert (a + b)[..|a + b| - 1] == a + b';
      CountAppend(a, b', P);
    }
  }

  lemma {:induction false} CountNone<T>(s: seq<T>, P: T -> bool)
    requires forall i :: 0 <= i < |s| ==> !P(s[i])
    ensures Count(s, P) == 0
    decreases |s|
  {
    if |s| > 0 {
      CountNone(s[..|s| - 1], P);
    }
  }

  lemma {:induction false} CountAll<T>(s: seq<T>, P: T -> bool)
    requires forall i :: 0 <= i < |s| ==> P(s[i])
    ensures Count(s, P) == |s|
    decreases |s|
  {
    if |s| > 0 {
      CountAll(s[..|s| - 1], P);
    }
  }

  lemma {:induction false} ForRangeMem<T>(n: nat, f: nat -> seq<T>, x: T)
    ensures x in ForRange(n, f) <==> exists i :: 0 <= i < n && x in f(i)
  {
    if n > 0 {
      ForRangeMem(n - 1, f, x);
      assert ForRange(n, f) == ForRange(n - 1, f) + f(n - 1);
    }
  }

  lemma CountMemNone<T>(s: seq<T>, P: T -> bool)
    requires forall x :: x in s ==> !P(x)
    ensures Count(s, P) == 0
  {
    CountNone(s, P);
  }

  lemma CountMemAll<T>(s: seq<T>, P: T -> bool)
    requires forall x :: x in s ==> P(x)
    ensures Count(s, P) == |s|
  {
    CountAll(s, P);
  }

  lemma CountSingleton<T>(x: T, P: T -> bool)
    ensures Count([x], P) == if P(x) then 1 else 0
  {
    assert [x][..0] == [];
  }

  lemma ForRangeMemAt<T>(n: nat, f: nat -> seq<T>, i: nat, x: T)
    requires i < n && x in f(i)
    ensures x in ForRange(n, f)
  {
    ForRangeMem(n, f, x);
  }

  /** The piece an element of a `ForRange` comes from. */
  lemma ForRangePiece<T>(n: nat, f: nat -> seq<T>, x: T) returns (i: nat)
    requires x in ForRange(n, f)
    ensures i < n && x in f(i)
  {
    ForRangeMem(n, f, x);
    i :| 0 <= i < n && x in f(i);
  }

  lemma {:induction false} ForRangeLen<T>(n: nat, f: nat -> seq<T>, len: nat)
    requires forall i :: 0 <= i < n ==> |f(i)| == len
    ensures |ForRange(n, f)| == n * len
  {
    if n > 0 {
      ForRangeLen(n - 1, f, len);
      assert n * len == (n - 1) * len + len;
    }
  }

  lemma {:induction false} MulStep(i: nat, n: nat, len: nat)
    requires i < n
    ensures i * len + len <= n * len
  {
    assert n * len == (n - 1) * len + len;
    if i < n - 1 {
      MulStep(i, n - 1, len);
    }
  }

  /** Element j of piece i sits at i*len + j when every piece has length len. */
  lemma {:induction false} ForRangeIndex<T>(n: nat, f: nat -> seq<T>, len: nat, i: nat, j: nat)
    requires forall m :: 0 <= m < n ==> |f(m)| == len
    requires i < n && j < len
    ensures i * len + j < |ForRange(n, f)|
    ensures ForRange(n, f)[i * len + j] == f(i)[j]
  {
    ForRangeLen(n, f, len);
    MulStep(i, n, len);
    ForRangeLen(n - 1, f, len);
    assert ForRange(n, f) == ForRange(n - 1, f) + f(n - 1);
    if i < n - 1 {
      MulStep(i, n - 1, len);
      ForRangeIndex(n - 1, f, len, i, j);
    } else {
      assert i * len == (n - 1) * len;
    }
  }

  lemma {:induction false} CountForRangeConst<T>(n: nat, f: nat -> seq<T>, P: T -> bool, v: nat)
    requires forall i :: 0 <= i < n ==> Count(f(i), P) == v
    ensures Count(ForRange(n, f), P) == n * v
  {
    if n > 0 {
      CountForRangeConst(n - 1, f, P, v);
      CountAppend(ForRange(n - 1, f), f(n - 1), P);
      assert n * v == (n - 1) * v + v;
    }
  }

  /** Only piece c contributes to the count. */
  lemma {:induction false} CountForRangeSingle<T>(n: nat, f: nat -> seq<T>, P: T -> bool, c: nat, v: nat)
    requires c < n
    requires forall i :: 0 <= i < n && i != c ==> Count(f(i), P) == 0
    requires Count(f(c), P) == v
    ensures Count(ForRange(n, f), P) == v
  {
    CountAppend(ForRange(n - 1, f), f(n - 1), P);
    if c < n - 1 {
      CountForRangeSingle(n - 1, f, P, c, v);
    } else {
      CountForRangeConst(n - 1, f, P, 0);
    }
  }

  lemma NoDupAppend<T>(a: seq<T>, b: seq<T>)
    requires NoDup(a) && NoDup(b)
    requires forall x :: x in a ==> x !in b
    ensures NoDup(a + b)
  {
    forall i, j | 0 <= i < j < |a + b|
      ensures (a + b)[i] != (a + b)[j]
    {
      if j < |a| {
      } else if i >= |a| {
        assert (a + b)[i] == b[i - |a|] && (a + b)[j] == b[j - |a|];
      } else {
        assert (a + b)[i] in a && (a + b)[j] in b;
      }
    }
  }

  lemma {:induction false} ForRangeKeyBound<T>(n: nat, f: nat -> seq<T>, key: T -> nat)
    requires forall i, x :: 0 <= i < n && x in f(i) ==> key(x) == i
    ensures forall x :: x in ForRange(n, f) ==> key(x) < n
  {
    forall x | x in ForRange(n, f)
      ensures key(x) < n
    {
      ForRangeMem(n, f, x);
    }
  }

  /** Pieces without duplicates, told apart by a key, concatenate without duplicates. */
  lemma {:induction false} ForRangeNoDup<T>(n: nat, f: nat -> seq<T>, key: T -> nat)
    requires forall i :: 0 <= i < n ==> NoDup(f(i))
    requires forall i, x :: 0 <= i < n && x in f(i) ==> key(x) == i
    ensures NoDup(ForRange(n, f))
  {
    if n > 0 {
      ForRangeNoDup(n - 1, f, key);
      ForRangeKeyBound(n - 1, f, key);
      NoDupAppend(ForRange(n - 1, f), f(n - 1));
    }
  }

  /** `list(map(f, xs))` for an f that may raise: `None` as soon as one
      element makes it raise. */
  function MapAll<A, B>(xs: seq<A>, f: A -> Option<B>): (r: Option<seq<B>>)
    ensures r.Some? <==> forall i :: 0 <= i < |xs| ==> f(xs[i]).Some?
    ensures r.Some? ==> |r.value| == |xs|
    ensures r.Some? ==> forall i :: 0 <= i < |xs| ==> r.value[i] == f(xs[i]).value
  {
    if |xs| == 0 then Some([])
    else
      var init, last := MapAll(xs[..|xs| - 1], f), f(xs[|xs| - 1]);
      if init.Some? && last.Some? then Some(init.value + [last.value]) else None
  }

  lemma MapAllSome<A, B>(xs: seq<A>, f: A -> Option<B>, ys: seq<B>)
    requires |xs| == |ys| && forall i :: 0 <= i < |xs| ==> f(xs[i]) == Some(ys[i])
    ensures MapAll(xs, f) == Some(ys)
  {
    var r := MapAll(xs, f);
    assert r.value == ys;
  }

  /** A function injective on the elements of a list without repeats has as
      many images as the list has elements. */
  /** The images of the elements of a list. */
  function Image<A(==), B(==)>(s: seq<A>, f: A -> B): (r: set<B>)
    ensures forall x :: x in s ==> f(x) in r
    ensures forall y :: y in r ==> exists x :: x in s && f(x) == y
  {
    set x | x in s :: f(x)
  }

  lemma {:induction false} ImageCard<A, B>(s: seq<A>, f: A -> B)
    requires NoDup(s)
    requires forall x, y :: x in s && y in s && f(x) == f(y) ==> x == y
    ensures |Image(s, f)| == |s|
  {
    if |s| > 0 {
      var init, last := s[..|s| - 1], s[|s| - 1];
      assert NoDup(init);
      ImageCard(init, f);
      assert last !in init;
      assert (set x | x in s :: f(x)) == (set x | x in init :: f(x)) + {f(last)} by {
        assert s == init + [last];
      }
      assert f(last) !in (set x | x in init :: f(x));
    }
  }
}
