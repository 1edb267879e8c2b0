/** The image object of the editor: its size, its layer list, the cached flattened bitmap,
    the zoom and pan of the view, the selected layer and the "changed since last flatten"
    flag, with the operations that read and update them. */
module ImageModel {
  import opened Colors
  import opened Layers
  import opened Compositing
  import opened Geometry

  /** The value of an operation, or the `ArgumentOutOfRangeException` that a list index
      outside the layer list raises. */
  datatype Result<T> = Ok(value: T) | IndexOutOfRange

  /** `Mathf.Clamp`: `v` held to [lo, hi]. */
  function Clamp(v: real, lo: real, hi: real): (r: real)
    requires lo <= hi
    ensures lo <= r <= hi
    ensures lo <= v <= hi ==> r == v
  {
    if v < lo then lo else if v > hi then hi else v
  }

  function Abs(v: real): real
  {
    if v < 0.0 then -v else v
  }

  /** The clamped value is the point of [lo, hi] nearest to `v`. */
  lemma ClampIsNearest(v: real, lo: real, hi: real, z: real)
    requires lo <= hi && lo <= z <= hi
    ensures Abs(Clamp(v, lo, hi) - v) <= Abs(z - v)
  {
  }

  /** The largest value the grid spacing field is clamped to. */
  const MaxGridSpacing: real := 140.0

  class UPAImage {
    var width: int
    var height: int
    var layers: seq<Layer>
    /** The cached flattened image, if one was built; pixel [x, y] is column x, row y. */
    var finalImg: array2?<Color>
    /** The stored zoom step; the view reads it plus one. */
    var storedGridSpacing: real
    var gridOffsetY: real
    var gridOffsetX: real
    var selectedLayer: int
    /** Raised by every change to the image; cleared when the flattened image is rebuilt. */
    var dirty: bool

    /** The stored grid spacing lies in the range its setter clamps to. */
    ghost predicate Valid()
      reads this`storedGridSpacing
    {
      0.0 <= storedGridSpacing <= MaxGridSpacing
    }

    /** Valid, and sized: the view divides by the width and draws a rectangle of
        positive height. */
    ghost predicate Ready()
      reads this`width, this`height, this`storedGridSpacing
    {
      Valid() && width > 0 && height > 0
    }

    /** A new image: no size and no layers yet, grid spacing 20, no pan, layer 0 selected,
        nothing cached and nothing changed. */
    constructor()
      ensures Valid()
      ensures width == 0 && height == 0 && layers == [] && finalImg == null
      ensures storedGridSpacing == 20.0 && gridOffsetX == 0.0 && gridOffsetY == 0.0
      ensures selectedLayer == 0 && !dirty
    {
      width, height := 0, 0;
      layers := [];
      finalImg := null;
      storedGridSpacing := 20.0;
      gridOffsetY, gridOffsetX := 0.0, 0.0;
      selectedLayer := 0;
      dirty := false;
    }

    /** The `gridSpacing` getter: one more than the stored value, so in [1, 141]. */
    function GridSpacing(): (g: real)
      reads this`storedGridSpacing
      requires Valid()
      ensures 1.0 <= g <= MaxGridSpacing + 1.0
    {
      storedGridSpacing + 1.0
    }

    /** The `gridSpacing` setter: stores the value clamped to [0, 140]; a value in range
        reads back increased by one. */
    method SetGridSpacing(value: real)
      modifies this`storedGridSpacing
      ensures Valid()
      ensures storedGridSpacing == Clamp(value, 0.0, MaxGridSpacing)
      ensures 0.0 <= value <= MaxGridSpacing ==> GridSpacing() == value + 1.0
    {
      storedGridSpacing := Clamp(value, 0.0, MaxGridSpacing);
    }

    /** Sets the size and replaces the layer list with one new layer (enabled, clear, of
        rank `order`), marking the image changed. */
    method Init(w: int, h: int, order: int)
      modifies this`width, this`height, this`layers, this`dirty
      ensures width == w && height == h
      ensures layers == [Blank(order)]
      ensures dirty
    {
      width := w;
      height := h;
      layers := [];
      var newLayer := Blank(order);
      layers := layers + [newLayer];
      dirty := true;
    }

    /** The on-screen rectangle of the image in a view of size viewW x viewH: 30 screen
        units per grid step across, the image's aspect ratio kept, centred in the view
        shifted by the pan offsets and 20 units down. */
    function GetImgRect(viewW: real, viewH: real): (r: Rect)
      reads this`width, this`height, this`storedGridSpacing, this`gridOffsetX, this`gridOffsetY
      requires Ready()
      ensures 30.0 <= r.w <= 30.0 * (MaxGridSpacing + 1.0) && r.h > 0.0
      ensures r.h * width as real == r.w * height as real
      ensures r.x + r.w / 2.0 == viewW / 2.0 + gridOffsetX
      ensures r.y + r.h / 2.0 == viewH / 2.0 + 20.0 + gridOffsetY
    {
      var ratio := height as real / width as real;
      var w := GridSpacing() * 30.0;
      var h := ratio * GridSpacing() * 30.0;
      var xPos := viewW / 2.0 - w / 2.0 + gridOffsetX;
      var yPos := viewH / 2.0 - h / 2.0 + 20.0 + gridOffsetY;
      AspectKept(height as real, width as real, GridSpacing());
      Rect(xPos, yPos, w, h)
    }

    /** The pixel under the screen position `pos`: the sentinel exactly when `pos` is off
        the image, otherwise a column in [0, width) and a row in [-height, -1]. */
    function GetPixelCoordinate(pos: Vec2, viewW: real, viewH: real): (c: Coord)
      reads this`width, this`height, this`storedGridSpacing, this`gridOffsetX, this`gridOffsetY
      requires Ready()
      ensures c == Sentinel <==> !GetImgRect(viewW, viewH).Contains(pos)
      ensures GetImgRect(viewW, viewH).Contains(pos) ==> 0 <= c.x < width && -height <= c.y <= -1
    {
      PixelCoordinate(GetImgRect(viewW, viewH), width, height, pos)
    }

    /** The colour on layer `layer` under the screen position `pos`: clear off the image,
        otherwise the pixel whose screen cell holds `pos`, or the out-of-range error for a
        layer index outside the list. */
    function GetPixelByPos(pos: Vec2, layer: int, viewW: real, viewH: real): (r: Result<Color>)
      reads this`width, this`height, this`storedGridSpacing, this`gridOffsetX, this`gridOffsetY, this`layers
      requires Ready()
      ensures !GetImgRect(viewW, viewH).Contains(pos) ==> r == Ok(Clear)
      ensures r == IndexOutOfRange
          <==> GetImgRect(viewW, viewH).Contains(pos) && !(0 <= layer < |layers|)
      ensures GetImgRect(viewW, viewH).Contains(pos) && 0 <= layer < |layers| ==>
                forall c :: InCell(GetImgRect(viewW, viewH), width, height, pos, c) ==>
                  r == Ok(layers[layer].At(c.x, c.y))
    {
      var c := GetPixelCoordinate(pos, viewW, viewH);
      if c == Sentinel then Ok(Clear)
      else if 0 <= layer < |layers| then
        PixelCoordinateIsOnlyCell(GetImgRect(viewW, viewH), width, height, pos);
        Ok(layers[layer].At(c.x, c.y))
      else IndexOutOfRange
    }

    /** Paints the pixel under `pos` on layer `layer` with `color`. Off the image nothing
        changes, not even the flag; a layer index outside the list raises before anything
        changes; otherwise exactly that pixel of that layer changes, the image is marked
        changed, and reading the position back gives `color`. */
    method SetPixelByPos(color: Color, pos: Vec2, layer: int, viewW: real, viewH: real)
      returns (result: Result<()>)
      requires Ready()
      modifies this`layers, this`dirty
      ensures old(GetPixelCoordinate(pos, viewW, viewH)) == Sentinel ==>
                result == Ok(()) && layers == old(layers) && dirty == old(dirty)
      ensures old(GetPixelCoordinate(pos, viewW, viewH)) != Sentinel && !(0 <= layer < |old(layers)|) ==>
                result == IndexOutOfRange && layers == old(layers) && dirty == old(dirty)
      ensures old(GetPixelCoordinate(pos, viewW, viewH)) != Sentinel && 0 <= layer < |old(layers)| ==>
                var c := old(GetPixelCoordinate(pos, viewW, viewH));
                result == Ok(()) && dirty &&
                layers == old(layers)[layer := old(layers)[layer].Put(c.x, c.y, color)] &&
                GetPixelByPos(pos, layer, viewW, viewH) == Ok(color)
    {
      var pixelCoordinate := GetPixelCoordinate(pos, viewW, viewH);
      if pixelCoordinate == Sentinel {
        return Ok(());
      }
      if !(0 <= layer < |layers|) {
        return IndexOutOfRange;
      }
      layers := layers[layer := layers[layer].Put(pixelCoordinate.x, pixelCoordinate.y, color)];
      dirty := true;
      result := Ok(());
    }

    /** Reorders the layer list by ascending rank, keeping the relative order of layers of
        equal rank: a sorted rearrangement of the same layers. */
    method SortLayersByOrder()
      modifies this`layers
      ensures layers == SortByOrder(old(layers))
      ensures Sorted(layers) && multiset(layers) == multiset(old(layers))
      ensures forall k :: WithOrder(layers, k) == WithOrder(old(layers), k)
    {
      layers := SortByOrder(layers);
      SortByOrderSorted(old(layers));
      SortByOrderPermutes(old(layers));
      forall k ensures WithOrder(layers, k) == WithOrder(old(layers), k) {
        SortByOrderStable(old(layers), k);
      }
    }

    /** Sorts the layer list, then blends the pixel (x, y) of every enabled layer, lowest
        rank first, over a clear start. */
    method GetBlendedPixel(x: int, y: int) returns (color: Color)
      modifies this`layers
      ensures layers == SortByOrder(old(layers))
      ensures color == Composite(layers, x, y)
    {
      SortLayersByOrder();
      color := Clear;
      for i := 0 to |layers|
        invariant layers == SortByOrder(old(layers))
        invariant color == Composite(layers[..i], x, y)
      {
        BlendStep(layers[..i + 1], x, y);
        assert layers[..i + 1][..i] == layers[..i];
        if !layers[i].enabled {
          continue;
        }
        var pixel := layers[i].At(x, y);
        var newR := pixel.r + color.r * (1.0 - pixel.a);
        var newG := pixel.g + color.g * (1.0 - pixel.a);
        var newB := pixel.b + color.b * (1.0 - pixel.a);
        var newA := pixel.a + color.a * (1.0 - pixel.a);
        color := Color(newR, newG, newB, newA);
      }
      assert layers[..|layers|] == layers;
    }

    /** The flattened image. With a cached image that is up to date, or when no update is
        asked for, the cache is returned and nothing changes. Otherwise a new width x height
        image is built whose every pixel is the blend of the sorted layers there, it becomes
        the cache, and the image is marked unchanged. */
    method GetFinalImage(update: bool) returns (img: array2<Color>)
      requires width >= 0 && height >= 0
      modifies this`finalImg, this`dirty, this`layers
      ensures old(finalImg) != null && (!old(dirty) || !update) ==>
                img == old(finalImg) && finalImg == old(finalImg) &&
                dirty == old(dirty) && layers == old(layers)
      ensures !(old(finalImg) != null && (!old(dirty) || !update)) ==>
                fresh(img) && finalImg == img && !dirty &&
                img.Length0 == width && img.Length1 == height &&
                layers == (if width > 0 && height > 0 then SortByOrder(old(layers)) else old(layers)) &&
                forall i, j :: 0 <= i < width && 0 <= j < height ==> img[i, j] == Composite(layers, i, j)
    {
      if (!dirty && finalImg != null) || (!update && finalImg != null) {
        return finalImg;
      }
      ghost var sorted := SortByOrder(layers);
      SortByOrderIdempotent(layers);
      var tex := new Color[width, height];
      finalImg := tex;
      for x := 0 to width
        invariant finalImg == tex
        invariant SortByOrder(layers) == sorted
        invariant layers == (if x > 0 && height > 0 then sorted else old(layers))
        invariant forall i, j :: 0 <= i < x && 0 <= j < height ==> tex[i, j] == Composite(sorted, i, j)
      {
        for y := 0 to height
          invariant finalImg == tex
          invariant SortByOrder(layers) == sorted
          invariant layers == (if (x > 0 && height > 0) || y > 0 then sorted else old(layers))
          invariant forall i, j :: 0 <= i < x && 0 <= j < height ==> tex[i, j] == Composite(sorted, i, j)
          invariant forall j :: 0 <= j < y ==> tex[x, j] == Composite(sorted, x, j)
        {
          var pixel := GetBlendedPixel(x, y);
          tex[x, y] := pixel;
        }
      }
      dirty := false;
      img := tex;
    }

    /** Appends a new layer (enabled, clear, of rank `order`) above the existing ones,
        which keep their positions, and marks the image changed. */
    method AddLayer(order: int)
      modifies this`layers, this`dirty
      ensures layers == old(layers) + [Blank(order)]
      ensures |layers| == |old(layers)| + 1 && layers[..|old(layers)|] == old(layers)
      ensures dirty
    {
      dirty := true;
      var newLayer := Blank(order);
      layers := layers + [newLayer];
    }

    /** Marks the image changed, then removes the layer at `index`, the others keeping
        their relative order; the selection moves down one only when it was that index.
        An index outside the list raises after the flag is set, with the list and the
        selection unchanged. */
    method RemoveLayerAt(index: int) returns (result: Result<()>)
      modifies this`layers, this`dirty, this`selectedLayer
      ensures dirty
      ensures !(0 <= index < |old(layers)|) ==>
                result == IndexOutOfRange && layers == old(layers) &&
                selectedLayer == old(selectedLayer)
      ensures 0 <= index < |old(layers)| ==>
                result == Ok(()) &&
                layers == old(layers)[..index] + old(layers)[index + 1..] &&
                |layers| == |old(layers)| - 1 &&
                selectedLayer == (if old(selectedLayer) == index then index - 1 else old(selectedLayer))
    {
      dirty := true;
      if !(0 <= index < |layers|) {
        return IndexOutOfRange;
      }
      layers := layers[..index] + layers[index + 1..];
      if selectedLayer == index {
        selectedLayer := selectedLayer - 1;
      }
      result := Ok(());
    }
  }

  /** The rectangle's height, (height / width) * g * 30, is positive and is to its width
      g * 30 as height is to width. */
  lemma AspectKept(height: real, width: real, g: real)
    requires width > 0.0 && height > 0.0 && g > 0.0
    ensures height / width * g * 30.0 > 0.0
    ensures (height / width * g * 30.0) * width == g * 30.0 * height
  {
    var ratio := height / width;
    assert ratio * width == height;
    assert ratio > 0.0;
    assert ratio * g > 0.0;
    assert (ratio * g * 30.0) * width == (ratio * width) * (g * 30.0);
  }

  /** The layer list `Init` leaves flattens to clear at every pixel. */
  lemma InitialImageIsClear(order: int, x: int, y: int)
    ensures Composite(SortByOrder([Blank(order)]), x, y) == Clear
  {
    var b := Blank(order);
    assert [b][1..] == [];
    assert SortByOrder([b]) == Insert(b, []) == [b];
    BlendStep([b], x, y);
    assert [b][..0] == [];
  }

  /** Removing the last layer undoes `AddLayer`: the list is as it was before. */
  lemma RemoveLastUndoesAdd(ls: seq<Layer>, l: Layer)
    ensures var t := ls + [l]; t[..|ls|] + t[|ls| + 1..] == ls
  {
    var t := ls + [l];
    assert t[..|ls|] == ls;
    assert t[|ls| + 1..] == [];
  }
}
