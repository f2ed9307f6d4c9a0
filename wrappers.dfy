/** The optional value used wherever the modelled code either has a value or
    does not: an absent feed field, a foreign call that raised. */
module Wrappers {

  datatype Option<+T> = None | Some(value: T) {

    /** The value, or `default` when there is none. */
    function GetOr(default: T): T {
      match this
      case Some(v) => v
      case None => default
    }

    /** The value as a list of zero or one elements. */
    function ToSeq(): (r: seq<T>)
      ensures |r| <= 1
      ensures Some? ==> r == [value]
      ensures None? ==> r == []
    {
      match this
      case Some(v) => [v]
      case None => []
    }
  }

  /** The present results of `f` on `xs`, in the order of `xs`: the elements
      for which `f` gives nothing are skipped. */
  function Present<A, B>(f: A -> Option<B>, xs: seq<A>): (r: seq<B>)
    ensures |r| <= |xs|
  {
    if xs == [] then [] else Present(f, xs[..|xs| - 1]) + f(xs[|xs| - 1]).ToSeq()
  }

  /** The positions in `xs` at which `f` gives a result. */
  function PresentAt<A, B>(f: A -> Option<B>, xs: seq<A>): (r: seq<nat>)
    ensures forall k :: 0 <= k < |r| ==> r[k] < |xs|
  {
    if xs == [] then []
    else
      var rest := PresentAt(f, xs[..|xs| - 1]);
      if f(xs[|xs| - 1]).None? then rest else rest + [|xs| - 1]
  }

  /** Skipping works element by element: the present results of a
      concatenation are those of each part, one after the other. */
  lemma {:induction false} PresentAppend<A, B>(f: A -> Option<B>, xs: seq<A>, ys: seq<A>)
    ensures Present(f, xs + ys) == Present(f, xs) + Present(f, ys)
    decreases |ys|
  {
    if ys == [] {
      assert xs + ys == xs;
    } else {
      var init := ys[..|ys| - 1];
      assert (xs + ys)[..|xs + ys| - 1] == xs + init;
      PresentAppend(f, xs, init);
    }
  }

  /** An element without a result leaves the results of its neighbours as
      they would be without it. */
  lemma PresentSkip<A, B>(f: A -> Option<B>, xs: seq<A>, x: A, ys: seq<A>)
    requires f(x).None?
    ensures Present(f, xs + [x] + ys) == Present(f, xs + ys)
  {
    assert Present(f, [x]) == [] by {
      assert [x][..0] == [];
    }
    assert Present(f, xs + [x]) == Present(f, xs) by {
      PresentAppend(f, xs, [x]);
    }
    PresentAppend(f, xs + [x], ys);
    PresentAppend(f, xs, ys);
  }

  /** Result `k` is that of the element at position `PresentAt(f, xs)[k]`,
      and those positions increase: skipping keeps the order of `xs`. */
  lemma {:induction false} PresentInOrder<A, B>(f: A -> Option<B>, xs: seq<A>)
    ensures var idx, r := PresentAt(f, xs), Present(f, xs);
      && |idx| == |r|
      && (forall k :: 0 <= k < |idx| ==> f(xs[idx[k]]) == Some(r[k]))
      && (forall k, l :: 0 <= k < l < |idx| ==> idx[k] < idx[l])
  {
    if xs != [] {
      var n := |xs| - 1;
      var init := xs[..n];
      PresentInOrder(f, init);
      var idx0, r0 := PresentAt(f, init), Present(f, init);
      var idx, r := PresentAt(f, xs), Present(f, xs);
      forall k | 0 <= k < |idx0| ensures xs[idx0[k]] == init[idx0[k]] {
      }
      if f(xs[n]).Some? {
        assert idx == idx0 + [n] && r == r0 + [f(xs[n]).value];
        forall k | 0 <= k < |idx| ensures f(xs[idx[k]]) == Some(r[k]) {
          if k < |idx0| {
            assert idx[k] == idx0[k] && r[k] == r0[k];
          }
        }
        forall k, l | 0 <= k < l < |idx| ensures idx[k] < idx[l] {
          if l < |idx0| {
            assert idx[k] == idx0[k] && idx[l] == idx0[l];
          } else {
            assert idx[k] == idx0[k] < n;
          }
        }
      } else {
        assert idx == idx0 && r == r0;
      }
    }
  }

  /** Every present result is the result of some element. */
  lemma {:induction false} PresentFrom<A, B>(f: A -> Option<B>, xs: seq<A>, b: B)
    requires b in Present(f, xs)
    ensures exists x :: x in xs && f(x) == Some(b)
  {
    var n := |xs| - 1;
    if b in Present(f, xs[..n]) {
      PresentFrom(f, xs[..n], b);
      var x :| x in xs[..n] && f(x) == Some(b);
      assert x in xs;
    } else {
      assert f(xs[n]) == Some(b);
    }
  }
}
