/** Facts about sequences of any kind. */
module Sequences {
  import opened Options

  /** Concatenations that agree, and whose first parts are equally long, agree part by part. */
  lemma SplitConcat<T>(a: seq<T>, b: seq<T>, c: seq<T>, d: seq<T>)
    requires a + b == c + d && |a| == |c|
    ensures a == c && b == d
  {
    assert a == (a + b)[..|a|] == (c + d)[..|c|] == c;
    assert b == (a + b)[|a|..] == (c + d)[|c|..] == d;
  }

  lemma ConcatAt<T>(a: seq<T>, b: seq<T>, k: nat)
    requires k < |a| + |b|
    ensures (a + b)[k] == if k < |a| then a[k] else b[k - |a|]
  {
  }

  /** The `i`-th element of `c`, found in anything that starts with `a + (b + c)`. */
  lemma LocatedAt<T>(a: seq<T>, b: seq<T>, c: seq<T>, whole: seq<T>, i: nat)
    requires a + (b + c) <= whole && i < |c|
    ensures |a| + |b| + i < |whole| && whole[|a| + |b| + i] == c[i]
  {
    assert (a + (b + c))[|a| + |b| + i] == c[i];
  }

  lemma TakeOut<T>(t: seq<T>, i: nat)
    requires i < |t|
    ensures multiset(t) == multiset(t[..i] + t[i + 1..]) + multiset{t[i]}
  {
    var front, back := t[..i], t[i + 1..];
    assert t == front + [t[i]] + back;
    assert multiset(front + [t[i]] + back) == multiset(front) + multiset{t[i]} + multiset(back);
    assert multiset(front + back) == multiset(front) + multiset(back);
  }

  /** Taking out an element before the last leaves the last one at the end. */
  lemma WithoutKeepsLast<T>(s: seq<T>, i: nat)
    requires i < |s| - 1
    ensures var n := |s| - 1;
            s[..i] + s[i + 1..] == (s[..n][..i] + s[..n][i + 1..]) + [s[n]]
  {
  }

  lemma CancelOne<T>(a: multiset<T>, b: multiset<T>, x: T)
    requires a + multiset{x} == b + multiset{x}
    ensures a == b
  {
    assert a == a + multiset{x} - multiset{x};
    assert b == b + multiset{x} - multiset{x};
  }

  /** In a permutation, the last element can be found and taken out. */
  lemma PeelPermutation<T>(s: seq<T>, t: seq<T>) returns (i: nat)
    requires s != [] && multiset(s) == multiset(t)
    ensures i < |t| && t[i] == s[|s| - 1]
    ensures multiset(s[..|s| - 1]) == multiset(t[..i] + t[i + 1..])
  {
    assert s[|s| - 1] in multiset(t);
    i :| 0 <= i < |t| && t[i] == s[|s| - 1];
    TakeOut(t, i);
    TakeOut(s, |s| - 1);
    assert s[..|s| - 1] + s[|s|..] == s[..|s| - 1];
    CancelOne(multiset(s[..|s| - 1]), multiset(t[..i] + t[i + 1..]), t[i]);
  }

  /** `f` of every element; None if it fails on one of them. */
  function MapAll<A, B>(f: A -> Option<B>, xs: seq<A>): (r: Option<seq<B>>)
    ensures r.Some? ==> |r.value| == |xs|
  {
    if xs == [] then Some([])
    else
      var front, last := MapAll(f, xs[..|xs| - 1]), f(xs[|xs| - 1]);
      if front.Some? && last.Some? then Some(front.value + [last.value]) else None
  }

  lemma MapAllNext<A, B>(f: A -> Option<B>, xs: seq<A>, i: nat)
    requires i < |xs| && MapAll(f, xs[..i]).Some? && f(xs[i]).Some?
    ensures MapAll(f, xs[..i + 1]) == Some(MapAll(f, xs[..i]).value + [f(xs[i]).value])
  {
    assert xs[..i + 1][..i] == xs[..i];
  }

  lemma {:induction false} MapAllFails<A, B>(f: A -> Option<B>, xs: seq<A>, i: nat)
    requires i < |xs| && f(xs[i]).None?
    ensures MapAll(f, xs).None?
  {
    if i < |xs| - 1 {
      MapAllFails(f, xs[..|xs| - 1], i);
    }
  }

  lemma {:induction false} MapAllAt<A, B>(f: A -> Option<B>, xs: seq<A>, i: nat)
    requires i < |xs| && MapAll(f, xs).Some?
    ensures f(xs[i]) == Some(MapAll(f, xs).value[i])
  {
    if i < |xs| - 1 {
      MapAllAt(f, xs[..|xs| - 1], i);
    }
  }

  lemma {:induction false} MapAllIff<A, B>(f: A -> Option<B>, xs: seq<A>)
    ensures MapAll(f, xs).Some? <==> forall i :: 0 <= i < |xs| ==> f(xs[i]).Some?
  {
    if xs != [] {
      MapAllIff(f, xs[..|xs| - 1]);
    }
  }

  /** `f` of every element. */
  function Mapped<A, B>(f: A -> B, xs: seq<A>): (r: seq<B>)
    ensures |r| == |xs|
  {
    if xs == [] then [] else Mapped(f, xs[..|xs| - 1]) + [f(xs[|xs| - 1])]
  }

  lemma {:induction false} MappedAt<A, B>(f: A -> B, xs: seq<A>, i: nat)
    requires i < |xs|
    ensures Mapped(f, xs)[i] == f(xs[i])
  {
    if i < |xs| - 1 {
      MappedAt(f, xs[..|xs| - 1], i);
    }
  }

  lemma {:induction false} MappedConcat<A, B>(f: A -> B, xs: seq<A>, ys: seq<A>)
    ensures Mapped(f, xs + ys) == Mapped(f, xs) + Mapped(f, ys)
  {
    if ys == [] {
      assert xs + ys == xs;
    } else {
      MappedConcat(f, xs, ys[..|ys| - 1]);
      assert (xs + ys)[..|xs + ys| - 1] == xs + ys[..|ys| - 1];
    }
  }

  lemma MappedAround<A, B>(f: A -> B, xs: seq<A>, i: nat)
    requires i < |xs|
    ensures Mapped(f, xs) == Mapped(f, xs[..i]) + [f(xs[i])] + Mapped(f, xs[i + 1..])
  {
    assert xs == xs[..i + 1] + xs[i + 1..] && xs[..i + 1][..i] == xs[..i];
    MappedConcat(f, xs[..i + 1], xs[i + 1..]);
  }

  lemma TakeMiddle<T>(a: seq<T>, x: T, b: seq<T>)
    ensures multiset(a + [x] + b) == multiset(a + b) + multiset{x}
  {
    assert multiset(a + [x] + b) == multiset(a) + multiset{x} + multiset(b);
    assert multiset(a + b) == multiset(a) + multiset(b);
  }

  lemma MappedWithout<A, B>(f: A -> B, xs: seq<A>, i: nat)
    requires i < |xs|
    ensures multiset(Mapped(f, xs)) == multiset(Mapped(f, xs[..i] + xs[i + 1..])) + multiset{f(xs[i])}
  {
    MappedAround(f, xs, i);
    MappedConcat(f, xs[..i], xs[i + 1..]);
    TakeMiddle(Mapped(f, xs[..i]), f(xs[i]), Mapped(f, xs[i + 1..]));
  }

  lemma {:induction false} MappedPermuted<A, B>(f: A -> B, xs: seq<A>, ys: seq<A>)
    requires multiset(xs) == multiset(ys)
    ensures multiset(Mapped(f, xs)) == multiset(Mapped(f, ys))
    decreases |xs|
  {
    if xs == [] {
      assert |multiset(ys)| == 0;
    } else {
      var i := PeelPermutation(xs, ys);
      MappedPermuted(f, xs[..|xs| - 1], ys[..i] + ys[i + 1..]);
      MappedWithout(f, ys, i);
    }
  }
}
