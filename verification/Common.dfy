/** Types shared by every module: optional values, results, bytes and peer IDs. */
module Common {
  datatype Option<+T> = None | Some(value: T)

  datatype Result<+T, +E> = Ok(value: T) | Err(error: E)

  type Byte = b: int | 0 <= b < 256

  type Bytes = seq<Byte>

  /** A libp2p peer ID is a byte string: a multihash. */
  type PeerId = Bytes

  /** The messages that a subscription's channel holds. */
  const CHANNEL_CAPACITY := 100
}

/** Sequences put together from pieces. */
module Pieces {
  function Flatten<T>(ps: seq<seq<T>>): seq<T> {
    if ps == [] then [] else ps[0] + Flatten(ps[1..])
  }

  function Filter<T>(p: T -> bool, s: seq<T>): seq<T> {
    if s == [] then []
    else
      var n := |s| - 1;
      Filter(p, s[..n]) + if p(s[n]) then [s[n]] else []
  }

  /** out lists, in order, the elements of s at the positions in at, which are those where p holds. */
  predicate Selects<T(==)>(p: T -> bool, s: seq<T>, at: seq<nat>, out: seq<T>) {
    && |at| == |out|
    && (forall k :: 0 <= k < |at| ==> at[k] < |s| && out[k] == s[at[k]])
    && (forall j, k :: 0 <= j < k < |at| ==> at[j] < at[k])
    && (forall i: nat :: i < |s| ==> (i in at <==> p(s[i])))
  }

  lemma SelectsLast<T>(p: T -> bool, s: seq<T>, at: seq<nat>, out: seq<T>)
    requires s != [] && Selects(p, s[..|s| - 1], at, out) && p(s[|s| - 1])
    ensures Selects(p, s, at + [|s| - 1], out + [s[|s| - 1]])
  {
    var n: nat := |s| - 1;
    var more := at + [n];
    forall i: nat | i < |s| ensures i in more <==> p(s[i]) {
      if i < n {
        assert s[..n][i] == s[i];
        assert i in at <==> p(s[i]);
        if i in at { assert i in more; }
      } else {
        assert more[|at|] == n;
      }
    }
  }

  lemma SelectsNoMore<T>(p: T -> bool, s: seq<T>, at: seq<nat>, out: seq<T>)
    requires s != [] && Selects(p, s[..|s| - 1], at, out) && !p(s[|s| - 1])
    ensures Selects(p, s, at, out)
  {
    var n: nat := |s| - 1;
    forall i: nat | i < |s| ensures i in at <==> p(s[i]) {
      if i < n { assert s[..n][i] == s[i]; }
    }
  }

  lemma {:induction false} FilterSelects<T>(p: T -> bool, s: seq<T>) returns (at: seq<nat>)
    ensures Selects(p, s, at, Filter(p, s))
  {
    if s == [] {
      at := [];
    } else {
      var n: nat := |s| - 1;
      at := FilterSelects(p, s[..n]);
      if p(s[n]) {
        SelectsLast(p, s, at, Filter(p, s[..n]));
        at := at + [n];
      } else {
        SelectsNoMore(p, s, at, Filter(p, s[..n]));
        assert Filter(p, s) == Filter(p, s[..n]);
      }
    }
  }

  function Repeat<T>(x: T, n: nat): (s: seq<T>)
    ensures |s| == n && forall k :: 0 <= k < n ==> s[k] == x
  {
    seq(n, k => x)
  }
}

/** Sums of a weight over a sequence: how the concurrent models count their threads. */
module Counting {
  function Sum<T>(s: seq<T>, f: T -> int): int {
    if s == [] then 0 else Sum(s[..|s| - 1], f) + f(s[|s| - 1])
  }

  lemma SumAppend<T>(s: seq<T>, x: T, f: T -> int)
    ensures Sum(s + [x], f) == Sum(s, f) + f(x)
  {
    assert (s + [x])[..|s|] == s;
  }

  /** Replacing one element changes the sum by the difference of the two weights. */
  lemma {:induction false} SumUpdate<T>(s: seq<T>, i: nat, x: T, f: T -> int)
    requires i < |s|
    ensures Sum(s[i := x], f) == Sum(s, f) - f(s[i]) + f(x)
  {
    var t, n := s[i := x], |s| - 1;
    if i == n {
      assert t[..n] == s[..n];
    } else {
      assert t[..n] == s[..n][i := x];
      SumUpdate(s[..n], i, x, f);
    }
  }

  lemma {:induction false} SumBounds<T>(s: seq<T>, f: T -> int, hi: nat)
    requires forall k :: 0 <= k < |s| ==> 0 <= f(s[k]) <= hi
    ensures 0 <= Sum(s, f) <= |s| * hi
  {
    if s == [] {
    } else {
      SumBounds(s[..|s| - 1], f, hi);
      assert |s| * hi == (|s| - 1) * hi + hi;
    }
  }

  lemma {:induction false} SumBoundBelow<T>(s: seq<T>, f: T -> int)
    requires forall k :: 0 <= k < |s| ==> f(s[k]) >= 0
    ensures Sum(s, f) >= 0
  {
    if s == [] {
    } else {
      SumBoundBelow(s[..|s| - 1], f);
    }
  }

  /** A sum of nonnegative weights is at least any one of them. */
  lemma {:induction false} SumAtLeast<T>(s: seq<T>, f: T -> int, i: nat)
    requires i < |s|
    requires forall k :: 0 <= k < |s| ==> f(s[k]) >= 0
    ensures Sum(s, f) >= f(s[i])
  {
    var n := |s| - 1;
    if i < n {
      SumAtLeast(s[..n], f, i);
    } else {
      SumBoundBelow(s[..n], f);
    }
  }
}

/** Runs of a step system: any schedule of actions, taken one after the other. */
module Runs {
  function Run<S, A>(step: (S, A) -> S, s: S, acts: seq<A>): S {
    if acts == [] then s else step(Run(step, s, acts[..|acts| - 1]), acts[|acts| - 1])
  }

  lemma RunMore<S, A>(step: (S, A) -> S, s: S, acts: seq<A>, a: A)
    ensures Run(step, s, acts + [a]) == step(Run(step, s, acts), a)
  {
    assert (acts + [a])[..|acts|] == acts;
  }

  lemma Run3<S, A>(step: (S, A) -> S, s: S, acts: seq<A>, a: A, b: A, c: A)
    ensures Run(step, s, acts + [a, b, c]) == step(step(step(Run(step, s, acts), a), b), c)
  {
    var one := acts + [a];
    var two := one + [b];
    assert acts + [a, b, c] == two + [c];
    RunMore(step, s, acts, a);
    RunMore(step, s, one, b);
    RunMore(step, s, two, c);
  }
}
