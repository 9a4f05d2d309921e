/** The array combinators the scripts use — `flatMap`-style accumulation,
    `filter` and `find` — with the facts the rest of the model needs. */
module Seqs {
  import opened Wrappers

  /** Concatenation of `f(x)` for each `x` of `xs`, in order: what a `for`
      loop that pushes `f(x)` for each element appends. */
  function FlatMap<T, U>(xs: seq<T>, f: T -> seq<U>): seq<U> {
    if xs == [] then [] else FlatMap(xs[..|xs| - 1], f) + f(xs[|xs| - 1])
  }

  /** The loop step: one more element appends its own part. */
  lemma FlatMapSnoc<T, U>(xs: seq<T>, x: T, f: T -> seq<U>)
    ensures FlatMap(xs + [x], f) == FlatMap(xs, f) + f(x)
  {
    assert (xs + [x])[..|xs|] == xs;
  }

  /** Two elements contribute their parts in order. */
  lemma FlatMapPair<T, U>(x: T, y: T, f: T -> seq<U>)
    ensures FlatMap([x, y], f) == f(x) + f(y)
  {
    assert [x, y][..1] == [x] && [x][..0] == [];
    assert FlatMap([x], f) == [] + f(x) == f(x);
  }

  /** Order: the parts of a concatenation come in the order of its halves. */
  lemma {:induction false} FlatMapAppend<T, U>(xs: seq<T>, ys: seq<T>, f: T -> seq<U>)
    ensures FlatMap(xs + ys, f) == FlatMap(xs, f) + FlatMap(ys, f)
  {
    if ys == [] {
      assert xs + ys == xs;
    } else {
      var init := ys[..|ys| - 1];
      var last := ys[|ys| - 1];
      assert xs + ys == (xs + init) + [last];
      assert ys == init + [last];
      FlatMapSnoc(xs + init, last, f);
      FlatMapSnoc(init, last, f);
      FlatMapAppend(xs, init, f);
    }
  }

  /** Completeness and soundness: an item is in the result exactly when some
      element's part holds it. */
  lemma {:induction false} FlatMapMember<T, U>(xs: seq<T>, f: T -> seq<U>, u: U)
    ensures u in FlatMap(xs, f) <==> exists k :: 0 <= k < |xs| && u in f(xs[k])
  {
    if xs != [] {
      var init := xs[..|xs| - 1];
      FlatMapMember(init, f, u);
      if u in FlatMap(xs, f) && u !in f(xs[|xs| - 1]) {
        var k :| 0 <= k < |init| && u in f(init[k]);
        assert xs[k] == init[k];
      }
      if exists k :: 0 <= k < |xs| && u in f(xs[k]) {
        var k :| 0 <= k < |xs| && u in f(xs[k]);
        if k < |xs| - 1 {
          assert init[k] == xs[k];
        }
      }
    }
  }

  /** Two functions that agree on every element give the same result. */
  lemma {:induction false} FlatMapCongruent<T, U>(xs: seq<T>, f: T -> seq<U>, g: T -> seq<U>)
    requires forall k :: 0 <= k < |xs| ==> f(xs[k]) == g(xs[k])
    ensures FlatMap(xs, f) == FlatMap(xs, g)
  {
    if xs != [] {
      var init := xs[..|xs| - 1];
      assert forall k :: 0 <= k < |init| ==> init[k] == xs[k];
      FlatMapCongruent(init, f, g);
    }
  }

  /** `xs.filter(p)`: the elements satisfying `p`, in order. */
  function Filter<T>(xs: seq<T>, p: T -> bool): (r: seq<T>)
    ensures |r| <= |xs|
  {
    if xs == [] then []
    else Filter(xs[..|xs| - 1], p) + (if p(xs[|xs| - 1]) then [xs[|xs| - 1]] else [])
  }

  /** Soundness and completeness: every kept element satisfies `p` and comes
      from `xs`, and every element of `xs` satisfying `p` is kept. */
  lemma {:induction false} FilterMembers<T>(xs: seq<T>, p: T -> bool)
    ensures forall k :: 0 <= k < |Filter(xs, p)| ==> p(Filter(xs, p)[k]) && Filter(xs, p)[k] in xs
    ensures forall k :: 0 <= k < |xs| && p(xs[k]) ==> xs[k] in Filter(xs, p)
  {
    if xs != [] {
      var init := xs[..|xs| - 1];
      FilterMembers(init, p);
      assert forall k :: 0 <= k < |init| ==> init[k] == xs[k];
    }
  }

  /** Order: filtering a concatenation filters each half in turn. */
  lemma {:induction false} FilterAppend<T>(xs: seq<T>, ys: seq<T>, p: T -> bool)
    ensures Filter(xs + ys, p) == Filter(xs, p) + Filter(ys, p)
  {
    if ys == [] {
      assert xs + ys == xs;
    } else {
      var init := ys[..|ys| - 1];
      assert (xs + ys)[..|xs + ys| - 1] == xs + init;
      FilterAppend(xs, init, p);
    }
  }

  /** Filtering one element keeps it exactly when it satisfies `p`. */
  lemma FilterSingle<T>(x: T, p: T -> bool)
    ensures Filter([x], p) == if p(x) then [x] else []
  {
    assert [x][..0] == [];
  }

  /** Filtering an element in front of a sequence. */
  lemma FilterCons<T>(x: T, xs: seq<T>, p: T -> bool)
    ensures Filter([x] + xs, p) == (if p(x) then [x] else []) + Filter(xs, p)
  {
    FilterAppend([x], xs, p);
    FilterSingle(x, p);
  }

  /** Nothing survives when no element satisfies `p`. */
  lemma {:induction false} FilterNone<T>(xs: seq<T>, p: T -> bool)
    requires forall k :: 0 <= k < |xs| ==> !p(xs[k])
    ensures Filter(xs, p) == []
  {
    if xs != [] {
      var init := xs[..|xs| - 1];
      assert forall k :: 0 <= k < |init| ==> init[k] == xs[k];
      FilterNone(init, p);
      assert !p(xs[|xs| - 1]);
    }
  }

  /** The head and tail of a sequence built by prepending one element. */
  lemma ConsHeadTail<T>(x: T, xs: seq<T>, ys: seq<T>)
    ensures ([x] + xs + ys)[0] == x && ([x] + xs + ys)[1..] == xs + ys
  {
  }

  /** Concatenation is associative. */
  lemma AppendAssoc<T>(xs: seq<T>, ys: seq<T>, zs: seq<T>)
    ensures xs + (ys + zs) == xs + ys + zs
  {
  }

  /** Prepending two elements one at a time is prepending the pair. */
  lemma PrependTwo<T>(x: T, y: T, xs: seq<T>, ys: seq<T>)
    ensures [x] + ([y] + (xs + ys)) == [x, y] + xs + ys
  {
  }

  /** A text with a doubled separator and a final separator, regrouped into
      the pieces a split at that separator yields one at a time: the part
      before, an empty piece, and the rest. */
  lemma DoubledSeparatorPieces<T>(xs: seq<T>, x: T, ys: seq<T>)
    ensures xs + [x, x] + ys + [x] == xs + [x] + ([] + [x] + (ys + [x]))
  {
  }

  /** `xs.find(p)`: the first element satisfying `p`, if any. */
  function FindFirst<T>(xs: seq<T>, p: T -> bool): (r: Option<T>)
    ensures r.None? <==> forall k :: 0 <= k < |xs| ==> !p(xs[k])
    ensures r.Some? ==> exists k :: 0 <= k < |xs| && xs[k] == r.value && p(xs[k])
                                    && forall j :: 0 <= j < k ==> !p(xs[j])
  {
    if xs == [] then None
    else if p(xs[0]) then Some(xs[0])
    else
      var r := FindFirst(xs[1..], p);
      assert forall k :: 0 < k < |xs| ==> xs[k] == xs[1..][k - 1];
      assert r.Some? ==> exists k :: 0 <= k < |xs| && xs[k] == r.value && p(xs[k])
                                    && forall j :: 0 <= j < k ==> !p(xs[j]) by {
        if r.Some? {
          var k :| 0 <= k < |xs[1..]| && xs[1..][k] == r.value && p(xs[1..][k])
                   && forall j :: 0 <= j < k ==> !p(xs[1..][j]);
          assert xs[k + 1] == r.value;
          assert forall j :: 0 <= j < k + 1 ==> !p(xs[j]) by {
            forall j | 0 <= j < k + 1 ensures !p(xs[j]) {
              if j > 0 { assert xs[j] == xs[1..][j - 1]; }
            }
          }
        }
      }
      r
  }

  /** An element preceded only by elements failing `p` is the one found. */
  lemma {:induction false} FindFirstAfter<T>(before: seq<T>, x: T, after: seq<T>, p: T -> bool)
    requires forall k :: 0 <= k < |before| ==> !p(before[k])
    requires p(x)
    ensures FindFirst(before + [x] + after, p) == Some(x)
  {
    if before != [] {
      assert (before + [x] + after)[1..] == before[1..] + [x] + after;
      FindFirstAfter(before[1..], x, after, p);
    }
  }
}
