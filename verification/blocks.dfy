/**
 * Cutting a sequence into consecutive blocks of a fixed size: the shape shared by the chunk
 * splitter (blocks of `chunksize` lines) and the batcher (blocks of `numrows` rows).
 */
module Blocks {
  import opened Arith

  /** Concatenation of a sequence of sequences, in order. */
  function Flatten<T>(xss: seq<seq<T>>): seq<T> {
    if xss == [] then [] else xss[0] + Flatten(xss[1..])
  }

  lemma {:induction false} FlattenAppend<T>(a: seq<seq<T>>, b: seq<seq<T>>)
    ensures Flatten(a + b) == Flatten(a) + Flatten(b)
  {
    if a != [] {
      assert (a + b)[0] == a[0];
      assert (a + b)[1..] == a[1..] + b;
      FlattenAppend(a[1..], b);
      calc {
        Flatten(a + b);
        a[0] + Flatten(a[1..] + b);
        a[0] + (Flatten(a[1..]) + Flatten(b));
        (a[0] + Flatten(a[1..])) + Flatten(b);
      }
    } else {
      assert a + b == b;
    }
  }

  /** The complete blocks of `g` elements at the front of `xs`, in order. */
  function Full<T>(xs: seq<T>, g: nat): seq<seq<T>>
    requires g >= 1
    decreases |xs|
  {
    if |xs| < g then [] else [xs[..g]] + Full(xs[g..], g)
  }

  /** What is left after the complete blocks: fewer than `g` elements. */
  function Rest<T>(xs: seq<T>, g: nat): seq<T>
    requires g >= 1
    decreases |xs|
  {
    if |xs| < g then xs else Rest(xs[g..], g)
  }

  /** The complete blocks followed by the rest give back `xs`; every block has exactly `g` elements. */
  lemma {:induction false} FullRest<T>(xs: seq<T>, g: nat)
    requires g >= 1
    ensures Flatten(Full(xs, g)) + Rest(xs, g) == xs
    ensures forall j :: 0 <= j < |Full(xs, g)| ==> |Full(xs, g)[j]| == g
    ensures |Rest(xs, g)| < g
    decreases |xs|
  {
    if |xs| >= g {
      FullRest(xs[g..], g);
      assert xs == xs[..g] + xs[g..];
      var f := Full(xs, g);
      assert f[1..] == Full(xs[g..], g);
      forall j | 0 <= j < |f| ensures |f[j]| == g {
        if j > 0 { assert f[j] == Full(xs[g..], g)[j - 1]; }
      }
    }
  }

  /** The number of complete blocks and the size of the rest are the quotient and the remainder. */
  lemma {:induction false} FullRestCount<T>(xs: seq<T>, g: nat)
    requires g >= 1
    ensures |Full(xs, g)| == |xs| / g
    ensures |Rest(xs, g)| == |xs| % g
    decreases |xs|
  {
    if |xs| < g {
      DivModUnique(|xs|, g, 0, |xs|);
    } else {
      FullRestCount(xs[g..], g);
      DivModShift(|xs| - g, g);
    }
  }

  /**
   * Appending one element either completes a block (exactly when the rest had `g - 1`
   * elements, that is, when `|xs| + 1` is a multiple of `g`) or grows the rest.
   */
  lemma {:induction false} Snoc<T>(xs: seq<T>, g: nat, x: T)
    requires g >= 1
    ensures |Rest(xs, g)| + 1 == g <==> (|xs| + 1) % g == 0
    ensures |Rest(xs, g)| + 1 == g ==>
              Full(xs + [x], g) == Full(xs, g) + [Rest(xs, g) + [x]] && Rest(xs + [x], g) == []
    ensures |Rest(xs, g)| + 1 != g ==>
              Full(xs + [x], g) == Full(xs, g) && Rest(xs + [x], g) == Rest(xs, g) + [x]
    decreases |xs|
  {
    if |xs| < g {
      if |xs| + 1 == g {
        DivModUnique(|xs| + 1, g, 1, 0);
        assert (xs + [x])[g..] == [];
        assert (xs + [x])[..g] == xs + [x];
      } else {
        DivModUnique(|xs| + 1, g, 0, |xs| + 1);
      }
    } else {
      var ys := xs + [x];
      assert ys[..g] == xs[..g];
      assert ys[g..] == xs[g..] + [x];
      Snoc(xs[g..], g, x);
      DivModShift(|xs| - g + 1, g);
    }
  }
}
