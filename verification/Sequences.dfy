/** Sequence filtering and concatenation used by the stream theorems. */
module Sequences {

  /** The elements of `s` satisfying `p`, in order. */
  function Keep<T>(p: T -> bool, s: seq<T>): seq<T> {
    if s == [] then []
    else
      var rest := Keep(p, s[..|s| - 1]);
      if p(s[|s| - 1]) then rest + [s[|s| - 1]] else rest
  }

  lemma {:induction false} KeepAppend<T>(p: T -> bool, a: seq<T>, b: seq<T>)
    ensures Keep(p, a + b) == Keep(p, a) + Keep(p, b)
  {
    if b == [] {
      assert a + b == a;
    } else {
      var n := |a + b| - 1;
      assert (a + b)[..n] == a + b[..|b| - 1];
      KeepAppend(p, a, b[..|b| - 1]);
    }
  }

  lemma {:induction false} KeepAll<T>(p: T -> bool, s: seq<T>)
    requires forall x <- s :: p(x)
    ensures Keep(p, s) == s
  {
    if s != [] {
      KeepAll(p, s[..|s| - 1]);
    }
  }

  /** Filtering twice keeps what both filters keep. */
  lemma {:induction false} KeepKeep<T>(p: T -> bool, q: T -> bool, s: seq<T>)
    requires forall x <- s :: q(x) ==> p(x)
    ensures Keep(q, Keep(p, s)) == Keep(q, s)
  {
    if s != [] {
      var n := |s| - 1;
      KeepKeep(p, q, s[..n]);
      KeepAppend(q, Keep(p, s[..n]), Keep(p, [s[n]]));
    }
  }

  /** The concatenation of `f(x)` over `s`. */
  function Flatten<S, T>(f: S -> seq<T>, s: seq<S>): seq<T> {
    if s == [] then [] else Flatten(f, s[..|s| - 1]) + f(s[|s| - 1])
  }

  lemma FlattenSnoc<S, T>(f: S -> seq<T>, s: seq<S>, x: S)
    ensures Flatten(f, s + [x]) == Flatten(f, s) + f(x)
  {
    assert (s + [x])[..|s|] == s;
  }

  lemma {:induction false} FlattenAppend<S, T>(f: S -> seq<T>, a: seq<S>, b: seq<S>)
    ensures Flatten(f, a + b) == Flatten(f, a) + Flatten(f, b)
  {
    if b == [] {
      assert a + b == a;
    } else {
      var init, last := b[..|b| - 1], b[|b| - 1];
      FlattenAppend(f, a, init);
      assert a + b == (a + init) + [last];
      FlattenSnoc(f, a + init, last);
      Associate(Flatten(f, a), Flatten(f, init), f(last));
    }
  }

  /** Elements that flatten to nothing of interest can be dropped first. */
  lemma {:induction false} KeepFlattenKeep<S(!new), T>(p: S -> bool, q: T -> bool, f: S -> seq<T>, s: seq<S>)
    requires forall x: S | !p(x) :: Keep(q, f(x)) == []
    ensures Keep(q, Flatten(f, Keep(p, s))) == Keep(q, Flatten(f, s))
  {
    if s != [] {
      var n := |s| - 1;
      KeepFlattenKeep(p, q, f, s[..n]);
      KeepAppend(q, Flatten(f, s[..n]), f(s[n]));
      var k := Keep(p, s[..n]);
      if p(s[n]) {
        FlattenSnoc(f, k, s[n]);
        KeepAppend(q, Flatten(f, k), f(s[n]));
      }
    }
  }

  lemma {:induction false} KeepWithin<T>(p: T -> bool, s: seq<T>)
    ensures forall x <- Keep(p, s) :: p(x) && x in s
  {
    if s != [] {
      KeepWithin(p, s[..|s| - 1]);
    }
  }

  lemma {:induction false} KeepFlatten<S, T>(q: T -> bool, f: S -> seq<T>, s: seq<S>)
    requires forall x <- s :: Keep(q, f(x)) == f(x)
    ensures Keep(q, Flatten(f, s)) == Flatten(f, s)
  {
    if s != [] {
      var n := |s| - 1;
      KeepFlatten(q, f, s[..n]);
      KeepAppend(q, Flatten(f, s[..n]), f(s[n]));
    }
  }

  lemma Regroup<T>(a: seq<T>, b: seq<T>, c: seq<T>, d: seq<T>)
    ensures a + (b + c + d) == (a + b) + (c + d) == ((a + b) + c) + d
  {}

  lemma Associate<T>(a: seq<T>, b: seq<T>, c: seq<T>)
    ensures (a + b) + c == a + (b + c)
  {}

  lemma KeepAppend3<T>(p: T -> bool, a: seq<T>, b: seq<T>, c: seq<T>)
    ensures Keep(p, a + b + c) == Keep(p, a) + (Keep(p, b) + Keep(p, c))
  {
    KeepAppend(p, a + b, c);
    KeepAppend(p, a, b);
    Associate(Keep(p, a), Keep(p, b), Keep(p, c));
  }

  /** Sequences that filter alike may be exchanged before a common rest. */
  lemma KeepExchange<T>(p: T -> bool, a: seq<T>, b: seq<T>, c: seq<T>)
    requires Keep(p, a) == Keep(p, b)
    ensures Keep(p, a + c) == Keep(p, b + c) == Keep(p, a) + Keep(p, c)
  {
    KeepAppend(p, a, c);
    KeepAppend(p, b, c);
  }

  /** `f` applied along `t` from the left, starting with `s`. */
  function Fold<S, T>(f: (S, T) -> S, s: S, t: seq<T>): S {
    if t == [] then s else f(Fold(f, s, t[..|t| - 1]), t[|t| - 1])
  }

  lemma FoldSnoc<S, T>(f: (S, T) -> S, s: S, t: seq<T>, x: T)
    ensures Fold(f, s, t + [x]) == f(Fold(f, s, t), x)
  {
    assert (t + [x])[..|t|] == t;
  }

  lemma {:induction false} FoldAppend<S, T>(f: (S, T) -> S, s: S, a: seq<T>, b: seq<T>)
    ensures Fold(f, s, a + b) == Fold(f, Fold(f, s, a), b)
  {
    if b == [] {
      assert a + b == a;
    } else {
      var init, x := b[..|b| - 1], b[|b| - 1];
      FoldAppend(f, s, a, init);
      assert a + b == (a + init) + [x];
      FoldSnoc(f, s, a + init, x);
    }
  }
}
