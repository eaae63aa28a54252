/**
 * Python list comprehensions used as stage chains: `[x for x in xs if f(x)]`
 * applied once per stage, and `[f(x) for x in xs]` applied once per stage.
 */
module Seqs {

  /** `[x for x in s if f(x)]`. */
  function Select<T>(s: seq<T>, f: T -> bool): (r: seq<T>)
    ensures |r| <= |s|
  {
    if s == [] then []
    else Select(s[..|s| - 1], f) + (if f(s[|s| - 1]) then [s[|s| - 1]] else [])
  }

  /** Selecting from a concatenation selects from each part. */
  lemma {:induction false} SelectAppend<T>(a: seq<T>, b: seq<T>, f: T -> bool)
    ensures Select(a + b, f) == Select(a, f) + Select(b, f)
    decreases |b|
  {
    if b != [] {
      var b', y := b[..|b| - 1], b[|b| - 1];
      SelectAppend(a, b', f);
      assert (a + b)[..|a + b| - 1] == a + b' && (a + b)[|a + b| - 1] == y;
      assert b[..|b| - 1] == b';
    } else {
      assert a + b == a;
    }
  }

  /** Extending the input by one element selects it exactly when `f` accepts it. */
  lemma {:induction false} SelectStep<T>(s: seq<T>, f: T -> bool, i: int)
    requires 0 <= i < |s|
    ensures Select(s[..i + 1], f) == Select(s[..i], f) + (if f(s[i]) then [s[i]] else [])
  {
    assert s[..i + 1][..i] == s[..i];
  }

  /** An element is selected exactly when it is in the input and `f` accepts it. */
  lemma {:induction false} SelectMembers<T>(s: seq<T>, f: T -> bool, x: T)
    ensures x in Select(s, f) <==> x in s && f(x)
  {
    if s != [] {
      SelectMembers(s[..|s| - 1], f, x);
      assert s == s[..|s| - 1] + [s[|s| - 1]];
    }
  }

  /** True when every stage accepts `x`. */
  predicate PassesAll<T>(fs: seq<T -> bool>, x: T)
  {
    forall i :: 0 <= i < |fs| ==> fs[i](x)
  }

  /** Keep, in order, the elements every stage accepts: the meaning of a filter chain. */
  function SelectPassingAll<T>(s: seq<T>, fs: seq<T -> bool>): seq<T>
  {
    if s == [] then []
    else SelectPassingAll(s[..|s| - 1], fs) + (if PassesAll(fs, s[|s| - 1]) then [s[|s| - 1]] else [])
  }

  /** The chain as the source runs it: one comprehension per stage, in stage order. */
  function SelectChain<T>(s: seq<T>, fs: seq<T -> bool>): seq<T>
    decreases |fs|
  {
    if fs == [] then s else SelectChain(Select(s, fs[0]), fs[1..])
  }

  lemma {:induction false} SelectThenAll<T>(s: seq<T>, f: T -> bool, fs: seq<T -> bool>)
    ensures SelectPassingAll(Select(s, f), fs) == SelectPassingAll(s, [f] + fs)
  {
    if s != [] {
      var init, x := s[..|s| - 1], s[|s| - 1];
      SelectThenAll(init, f, fs);
      assert PassesAll([f] + fs, x) <==> f(x) && PassesAll(fs, x) by {
        if f(x) && PassesAll(fs, x) {
          forall i | 0 <= i < |[f] + fs| ensures ([f] + fs)[i](x) {
            if i > 0 { assert ([f] + fs)[i] == fs[i - 1]; }
          }
        }
        if PassesAll([f] + fs, x) {
          assert ([f] + fs)[0] == f;
          forall i | 0 <= i < |fs| ensures fs[i](x) { assert ([f] + fs)[i + 1] == fs[i]; }
        }
      }
      if f(x) {
        var y := Select(init, f) + [x];
        assert Select(s, f) == y;
        assert y[..|y| - 1] == Select(init, f) && y[|y| - 1] == x;
      } else {
        assert Select(s, f) == Select(init, f);
      }
    }
  }

  lemma {:induction false} SelectPassingNone<T>(s: seq<T>)
    ensures SelectPassingAll(s, []) == s
  {
    if s != [] {
      SelectPassingNone(s[..|s| - 1]);
    }
  }

  /** Running the stages one after another keeps exactly what all of them accept, in order. */
  lemma {:induction false} SelectChainIsConjunction<T>(s: seq<T>, fs: seq<T -> bool>)
    ensures SelectChain(s, fs) == SelectPassingAll(s, fs)
    decreases |fs|
  {
    if fs == [] {
      SelectPassingNone(s);
    } else {
      SelectChainIsConjunction(Select(s, fs[0]), fs[1..]);
      SelectThenAll(s, fs[0], fs[1..]);
      assert [fs[0]] + fs[1..] == fs;
    }
  }

  /** Membership in a conjunction filter: an element of the input that all stages accept. */
  lemma {:induction false} SelectPassingAllMembers<T>(s: seq<T>, fs: seq<T -> bool>, x: T)
    ensures x in SelectPassingAll(s, fs) <==> x in s && PassesAll(fs, x)
  {
    if s != [] {
      SelectPassingAllMembers(s[..|s| - 1], fs, x);
      assert s == s[..|s| - 1] + [s[|s| - 1]];
    }
  }

  /** `[f(x) for x in s]`. */
  function Map<T>(s: seq<T>, f: T -> T): (r: seq<T>)
    ensures |r| == |s|
    ensures forall i :: 0 <= i < |s| ==> r[i] == f(s[i])
  {
    seq(|s|, i requires 0 <= i < |s| => f(s[i]))
  }

  /** One record passed through every stage, in stage order. */
  function Compose<T>(fs: seq<T -> T>, x: T): T
  {
    if fs == [] then x else Compose(fs[1..], fs[0](x))
  }

  /** The chain as the source runs it: one map per stage, in stage order. */
  function MapChain<T>(s: seq<T>, fs: seq<T -> T>): seq<T>
    decreases |fs|
  {
    if fs == [] then s else MapChain(Map(s, fs[0]), fs[1..])
  }

  /** A map chain keeps the length and order, and sends each element through every stage. */
  lemma {:induction false} MapChainPointwise<T>(s: seq<T>, fs: seq<T -> T>)
    ensures |MapChain(s, fs)| == |s|
    ensures forall i :: 0 <= i < |s| ==> MapChain(s, fs)[i] == Compose(fs, s[i])
    decreases |fs|
  {
    if fs != [] {
      MapChainPointwise(Map(s, fs[0]), fs[1..]);
    }
  }
}
