/** Flattening a stack of layers into one colour per pixel. */
module Compositing {
  import opened Colors
  import opened Layers

  /** The colour at (x, y) of the stack `ls`, bottom layer first: clear, with the pixel of
      every enabled layer laid over it in turn; disabled layers contribute nothing. */
  function Composite(ls: seq<Layer>, x: int, y: int): Color
  {
    if ls == [] then Clear
    else
      var below := Composite(ls[..|ls| - 1], x, y);
      var top := ls[|ls| - 1];
      if top.enabled then Over(top.At(x, y), below) else below
  }

  /** The enabled layers of `ls`, in their order in `ls`. */
  function Enabled(ls: seq<Layer>): (r: seq<Layer>)
    ensures forall l :: l in r <==> l in ls && l.enabled
  {
    if ls == [] then []
    else
      var top := ls[|ls| - 1];
      assert ls == ls[..|ls| - 1] + [top];
      Enabled(ls[..|ls| - 1]) + (if top.enabled then [top] else [])
  }

  /** One step of the blend loop: the colour of a non-empty stack is its top layer's pixel
      laid over the colour of the rest, when that layer is enabled. */
  lemma BlendStep(ls: seq<Layer>, x: int, y: int)
    requires ls != []
    ensures var top, below := ls[|ls| - 1], Composite(ls[..|ls| - 1], x, y);
            Composite(ls, x, y) == if top.enabled then Over(top.At(x, y), below) else below
  {
  }

  /** Disabled layers are skipped: the stack composites exactly as its enabled layers do. */
  lemma {:induction false} CompositeOfEnabled(ls: seq<Layer>, x: int, y: int)
    ensures Composite(ls, x, y) == Composite(Enabled(ls), x, y)
  {
    if ls != [] {
      var init, top := ls[..|ls| - 1], ls[|ls| - 1];
      CompositeOfEnabled(init, x, y);
      var below := Composite(init, x, y);
      if top.enabled {
        var e := Enabled(ls);
        assert e == Enabled(init) + [top];
        assert e[..|e| - 1] == Enabled(init);
        assert Composite(e, x, y) == Over(top.At(x, y), below);
      } else {
        assert Enabled(ls) == Enabled(init) + [];
        assert Enabled(ls) == Enabled(init);
      }
    }
  }

  /** With one enabled layer the result is that layer's own pixel. */
  lemma SingleEnabledLayer(ls: seq<Layer>, l: Layer, x: int, y: int)
    requires Enabled(ls) == [l]
    ensures Composite(ls, x, y) == l.At(x, y)
  {
    CompositeOfEnabled(ls, x, y);
    assert [l][..0] == [];
  }

  /** An opaque pixel on the topmost enabled layer hides everything below it. */
  lemma OpaqueTopHidesBelow(ls: seq<Layer>, x: int, y: int)
    requires Enabled(ls) != []
    requires Enabled(ls)[|Enabled(ls)| - 1].At(x, y).a == 1.0
    ensures Composite(ls, x, y) == Enabled(ls)[|Enabled(ls)| - 1].At(x, y)
  {
    CompositeOfEnabled(ls, x, y);
    var e := Enabled(ls);
    assert e[|e| - 1] in e;
  }

  /** A layer that is disabled, or clear at (x, y), can sit anywhere in the stack without
      changing the colour at (x, y). */
  lemma {:induction false} ClearLayerIsInvisible(ls: seq<Layer>, i: nat, l: Layer, x: int, y: int)
    requires i <= |ls|
    requires !l.enabled || l.At(x, y) == Clear
    ensures Composite(ls[..i] + [l] + ls[i..], x, y) == Composite(ls, x, y)
  {
    var s := ls[..i] + [l] + ls[i..];
    if i == |ls| {
      assert s[..|s| - 1] == ls;
    } else {
      var init, top := ls[..|ls| - 1], ls[|ls| - 1];
      ClearLayerIsInvisible(init, i, l, x, y);
      assert s[..|s| - 1] == init[..i] + [l] + init[i..];
      assert s[|s| - 1] == top;
    }
  }

  /** When every enabled pixel at (x, y) is premultiplied, so is the result: on such input
      the blend is the textbook "source over" and stays in range. */
  lemma {:induction false} CompositeKeepsPremultiplied(ls: seq<Layer>, x: int, y: int)
    requires forall l :: l in ls && l.enabled ==> Premultiplied(l.At(x, y))
    ensures Premultiplied(Composite(ls, x, y))
  {
    if ls != [] {
      var init, top := ls[..|ls| - 1], ls[|ls| - 1];
      assert forall l :: l in init ==> l in ls;
      CompositeKeepsPremultiplied(init, x, y);
      if top.enabled {
        OverKeepsPremultiplied(top.At(x, y), Composite(init, x, y));
      }
    }
  }

  /** When every enabled alpha at (x, y) lies in [0, 1], so does the resulting alpha. */
  lemma {:induction false} CompositeAlphaInUnitRange(ls: seq<Layer>, x: int, y: int)
    requires forall l :: l in ls && l.enabled ==> 0.0 <= l.At(x, y).a <= 1.0
    ensures 0.0 <= Composite(ls, x, y).a <= 1.0
  {
    if ls != [] {
      var init, top := ls[..|ls| - 1], ls[|ls| - 1];
      assert forall l :: l in init ==> l in ls;
      CompositeAlphaInUnitRange(init, x, y);
      if top.enabled {
        OverKeepsAlphaInUnitRange(top.At(x, y), Composite(init, x, y));
      }
    }
  }

  /** A layer added at the end of the list that is disabled, or clear at (x, y), leaves the
      colour at (x, y) of the sorted list unchanged, wherever the sort places it. */
  lemma AddedClearLayerIsInvisible(ls: seq<Layer>, l: Layer, x: int, y: int)
    requires !l.enabled || l.At(x, y) == Clear
    ensures Composite(SortByOrder(ls + [l]), x, y) == Composite(SortByOrder(ls), x, y)
  {
    var t := SortByOrder(ls);
    SortAppendIsInsertAfter(ls, l);
    InsertAfterSplits(l, t);
    ClearLayerIsInvisible(t, InsertAfterIndex(l, t), l, x, y);
  }
}
