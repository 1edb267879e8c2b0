/** A layer of the image and the stable ordering of a layer list by its `order` field. */
module Layers {
  import opened Colors

  /** An integer pixel coordinate (column x, row y). */
  datatype Coord = Coord(x: int, y: int)

  /** A layer: its compositing rank, whether it takes part in compositing, and its pixels.
      The pixels are an abstract store from coordinates to colours; a coordinate that was
      never written reads as clear. */
  datatype Layer = Layer(order: int, enabled: bool, pixels: map<Coord, Color>)
  {
    /** The colour stored at (x, y). */
    function At(x: int, y: int): (c: Color)
      ensures Coord(x, y) !in pixels ==> c == Clear
    {
      if Coord(x, y) in pixels then pixels[Coord(x, y)] else Clear
    }

    /** The layer with (x, y) set to `c` and nothing else changed. */
    function Put(x: int, y: int, c: Color): (l: Layer)
      ensures l.order == order && l.enabled == enabled
      ensures l.At(x, y) == c
      ensures forall x', y' :: (x', y') != (x, y) ==> l.At(x', y') == At(x', y')
    {
      Layer(order, enabled, pixels[Coord(x, y) := c])
    }
  }

  /** A freshly created layer: enabled and fully transparent, with the rank it is given. */
  function Blank(order: int): (l: Layer)
    ensures l.order == order && l.enabled
    ensures forall x, y :: l.At(x, y) == Clear
  {
    Layer(order, true, map[])
  }

  /** Layers sorted by ascending `order`. */
  ghost predicate Sorted(s: seq<Layer>)
  {
    forall i, j :: 0 <= i < j < |s| ==> s[i].order <= s[j].order
  }

  /** The layers of `s` whose `order` is `k`, in their order in `s`. */
  function WithOrder(s: seq<Layer>, k: int): seq<Layer>
  {
    if s == [] then []
    else (if s[0].order == k then [s[0]] else []) + WithOrder(s[1..], k)
  }

  /** `l` placed in front of the first layer of `s` whose order is not below its own. */
  function Insert(l: Layer, s: seq<Layer>): (r: seq<Layer>)
    ensures |r| == |s| + 1
  {
    if s == [] || l.order <= s[0].order then [l] + s
    else [s[0]] + Insert(l, s[1..])
  }

  /** `layers.OrderBy(layer => layer.order).ToList()`: a stable sort by ascending `order`. */
  function SortByOrder(s: seq<Layer>): (r: seq<Layer>)
    ensures |r| == |s|
  {
    if s == [] then [] else Insert(s[0], SortByOrder(s[1..]))
  }

  lemma {:induction false} WithOrderMembers(s: seq<Layer>, k: int, l: Layer)
    ensures l in WithOrder(s, k) <==> l in s && l.order == k
  {
    if s != [] {
      WithOrderMembers(s[1..], k, l);
      assert s == [s[0]] + s[1..];
    }
  }

  lemma WithOrderOfHead(s: seq<Layer>)
    ensures s != [] ==> WithOrder(s, s[0].order) != []
  {
  }

  lemma {:induction false} WithOrderAppend(a: seq<Layer>, b: seq<Layer>, k: int)
    ensures WithOrder(a + b, k) == WithOrder(a, k) + WithOrder(b, k)
  {
    if a == [] {
      assert a + b == b;
    } else {
      var head := if a[0].order == k then [a[0]] else [];
      assert (a + b)[0] == a[0];
      assert (a + b)[1..] == a[1..] + b;
      WithOrderAppend(a[1..], b, k);
      assert WithOrder(a + b, k) == head + (WithOrder(a[1..], k) + WithOrder(b, k));
      assert WithOrder(a, k) == head + WithOrder(a[1..], k);
    }
  }

  lemma {:induction false} InsertPermutes(l: Layer, s: seq<Layer>)
    ensures multiset(Insert(l, s)) == multiset(s) + multiset{l}
  {
    if s != [] && l.order > s[0].order {
      InsertPermutes(l, s[1..]);
      assert s == [s[0]] + s[1..];
    }
  }

  lemma {:induction false} InsertSorted(l: Layer, s: seq<Layer>)
    requires Sorted(s)
    ensures Sorted(Insert(l, s))
  {
    if s != [] && l.order > s[0].order {
      var t := Insert(l, s[1..]);
      InsertSorted(l, s[1..]);
      InsertPermutes(l, s[1..]);
      forall j | 0 <= j < |t| ensures s[0].order <= t[j].order {
        assert t[j] in multiset(t);
        assert t[j] == l || t[j] in multiset(s[1..]);
      }
    }
  }

  /** Inserting `l` adds it to the run of its own order, in front; other runs are untouched. */
  lemma {:induction false} InsertWithOrder(l: Layer, s: seq<Layer>, k: int)
    ensures WithOrder(Insert(l, s), k) == (if l.order == k then [l] else []) + WithOrder(s, k)
  {
    if s == [] || l.order <= s[0].order {
      WithOrderAppend([l], s, k);
    } else {
      InsertWithOrder(l, s[1..], k);
      WithOrderAppend([s[0]], Insert(l, s[1..]), k);
    }
  }

  /** The sorted list is a rearrangement of the input. */
  lemma {:induction false} SortByOrderPermutes(s: seq<Layer>)
    ensures multiset(SortByOrder(s)) == multiset(s)
    ensures |SortByOrder(s)| == |s|
  {
    if s != [] {
      SortByOrderPermutes(s[1..]);
      InsertPermutes(s[0], SortByOrder(s[1..]));
      assert s == [s[0]] + s[1..];
    }
    assert |multiset(SortByOrder(s))| == |multiset(s)|;
  }

  /** The sorted list is non-decreasing in `order`. */
  lemma {:induction false} SortByOrderSorted(s: seq<Layer>)
    ensures Sorted(SortByOrder(s))
  {
    if s != [] {
      SortByOrderSorted(s[1..]);
      InsertSorted(s[0], SortByOrder(s[1..]));
    }
  }

  /** The sort is stable: layers of equal `order` keep their relative positions. */
  lemma {:induction false} SortByOrderStable(s: seq<Layer>, k: int)
    ensures WithOrder(SortByOrder(s), k) == WithOrder(s, k)
  {
    if s != [] {
      SortByOrderStable(s[1..], k);
      InsertWithOrder(s[0], SortByOrder(s[1..]), k);
    }
  }

  /** Two sorted lists with the same layers in every run of equal `order` are the same list:
      a sorted, stable rearrangement is unique. */
  lemma {:induction false} SortedUnique(a: seq<Layer>, b: seq<Layer>)
    requires Sorted(a) && Sorted(b)
    requires forall k :: WithOrder(a, k) == WithOrder(b, k)
    ensures a == b
  {
    if a == [] || b == [] {
      if a != [] || b != [] {
        WithOrderOfHead(if a != [] then a else b);
        assert false;
      }
    } else {
      var k0, k1 := a[0].order, b[0].order;
      WithOrderMembers(a, k1, b[0]);
      WithOrderMembers(b, k1, b[0]);
      assert b[0] in WithOrder(a, k1);
      WithOrderMembers(b, k0, a[0]);
      WithOrderMembers(a, k0, a[0]);
      assert a[0] in WithOrder(b, k0);
      assert k0 == k1;
      assert a[0] == WithOrder(a, k0)[0] == WithOrder(b, k0)[0] == b[0];
      forall k ensures WithOrder(a[1..], k) == WithOrder(b[1..], k) {
        assert WithOrder(a, k) == WithOrder(b, k);
        if k == k0 {
          assert WithOrder(a, k) == [a[0]] + WithOrder(a[1..], k);
          assert WithOrder(b, k) == [b[0]] + WithOrder(b[1..], k);
          assert WithOrder(a[1..], k) == WithOrder(a, k)[1..];
          assert WithOrder(b[1..], k) == WithOrder(b, k)[1..];
        } else {
          assert WithOrder(a, k) == WithOrder(a[1..], k);
          assert WithOrder(b, k) == WithOrder(b[1..], k);
        }
        assert WithOrder(a[1..], k) == WithOrder(b[1..], k);
      }
      SortedUnique(a[1..], b[1..]);
      assert a == [a[0]] + a[1..] && b == [b[0]] + b[1..];
    }
  }

  /** Sorting a list that is already sorted leaves it as it is. */
  lemma SortByOrderOfSorted(s: seq<Layer>)
    requires Sorted(s)
    ensures SortByOrder(s) == s
  {
    SortByOrderSorted(s);
    forall k ensures WithOrder(SortByOrder(s), k) == WithOrder(s, k) {
      SortByOrderStable(s, k);
    }
    SortedUnique(SortByOrder(s), s);
  }

  /** Sorting twice gives the same list as sorting once. */
  lemma SortByOrderIdempotent(s: seq<Layer>)
    ensures SortByOrder(SortByOrder(s)) == SortByOrder(s)
  {
    SortByOrderSorted(s);
    SortByOrderOfSorted(SortByOrder(s));
  }

  /** The sorted list depends only on the runs of equal `order`: two lists that list the
      layers of each rank in the same relative order sort to the same list, however the
      ranks are interleaved in storage. */
  lemma SortByOrderIgnoresStorageOrder(p: seq<Layer>, q: seq<Layer>)
    requires forall k :: WithOrder(p, k) == WithOrder(q, k)
    ensures SortByOrder(p) == SortByOrder(q)
  {
    SortByOrderSorted(p);
    SortByOrderSorted(q);
    forall k ensures WithOrder(SortByOrder(p), k) == WithOrder(SortByOrder(q), k) {
      SortByOrderStable(p, k);
      SortByOrderStable(q, k);
    }
    SortedUnique(SortByOrder(p), SortByOrder(q));
  }

  /** `l` placed after every layer of `t` whose order is not above its own. */
  function InsertAfter(l: Layer, t: seq<Layer>): seq<Layer>
  {
    if t == [] || l.order < t[0].order then [l] + t
    else [t[0]] + InsertAfter(l, t[1..])
  }

  /** The position at which `InsertAfter` places `l`. */
  function InsertAfterIndex(l: Layer, t: seq<Layer>): (i: nat)
    ensures i <= |t|
  {
    if t == [] || l.order < t[0].order then 0 else 1 + InsertAfterIndex(l, t[1..])
  }

  /** `InsertAfter` puts `l` at one position and leaves the rest of `t` as it was. */
  lemma {:induction false} InsertAfterSplits(l: Layer, t: seq<Layer>)
    ensures InsertAfter(l, t)
         == t[..InsertAfterIndex(l, t)] + [l] + t[InsertAfterIndex(l, t)..]
  {
    if !(t == [] || l.order < t[0].order) {
      var i := InsertAfterIndex(l, t[1..]);
      InsertAfterSplits(l, t[1..]);
      assert t[..i + 1] == [t[0]] + t[1..][..i];
      assert t[i + 1..] == t[1..][i..];
    }
  }

  lemma {:induction false} InsertAfterPermutes(l: Layer, t: seq<Layer>)
    ensures multiset(InsertAfter(l, t)) == multiset(t) + multiset{l}
  {
    if !(t == [] || l.order < t[0].order) {
      InsertAfterPermutes(l, t[1..]);
      assert t == [t[0]] + t[1..];
    }
  }

  lemma {:induction false} InsertAfterSorted(l: Layer, t: seq<Layer>)
    requires Sorted(t)
    ensures Sorted(InsertAfter(l, t))
  {
    if !(t == [] || l.order < t[0].order) {
      var u := InsertAfter(l, t[1..]);
      InsertAfterSorted(l, t[1..]);
      InsertAfterPermutes(l, t[1..]);
      forall j | 0 <= j < |u| ensures t[0].order <= u[j].order {
        assert u[j] in multiset(u);
        assert u[j] == l || u[j] in multiset(t[1..]);
      }
    }
  }

  /** A list in which no layer has order k has an empty run for k. */
  lemma WithOrderAbsent(s: seq<Layer>, k: int)
    requires forall i :: 0 <= i < |s| ==> s[i].order != k
    ensures WithOrder(s, k) == []
  {
    var w := WithOrder(s, k);
    if w != [] {
      WithOrderMembers(s, k, w[0]);
      assert false;
    }
  }

  /** Into a sorted list, `InsertAfter` adds `l` at the back of the run of its own order. */
  lemma {:induction false} InsertAfterWithOrder(l: Layer, t: seq<Layer>, k: int)
    requires Sorted(t)
    ensures WithOrder(InsertAfter(l, t), k) == WithOrder(t, k) + (if l.order == k then [l] else [])
  {
    var tail := if l.order == k then [l] else [];
    if t == [] || l.order < t[0].order {
      WithOrderAppend([l], t, k);
      assert WithOrder([l], k) == tail;
      if l.order == k {
        WithOrderAbsent(t, k);
      }
    } else {
      InsertAfterWithOrder(l, t[1..], k);
      WithOrderAppend([t[0]], InsertAfter(l, t[1..]), k);
      var head := if t[0].order == k then [t[0]] else [];
      assert WithOrder([t[0]], k) == head;
      assert WithOrder(t, k) == head + WithOrder(t[1..], k);
    }
  }

  /** Sorting a list with one more layer at its end places that layer after every layer whose
      order is not above its own, the rest keeping their sorted order. */
  lemma SortAppendIsInsertAfter(s: seq<Layer>, l: Layer)
    ensures SortByOrder(s + [l]) == InsertAfter(l, SortByOrder(s))
  {
    var t := SortByOrder(s);
    SortByOrderSorted(s + [l]);
    SortByOrderSorted(s);
    InsertAfterSorted(l, t);
    forall k ensures WithOrder(SortByOrder(s + [l]), k) == WithOrder(InsertAfter(l, t), k) {
      SortByOrderStable(s + [l], k);
      SortByOrderStable(s, k);
      WithOrderAppend(s, [l], k);
      assert WithOrder([l], k) == (if l.order == k then [l] else []);
      InsertAfterWithOrder(l, t, k);
    }
    SortedUnique(SortByOrder(s + [l]), InsertAfter(l, t));
  }
}
