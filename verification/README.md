# UPAImage in Dafny

A model of the image object of the Unity pixel-art editor UPA Toolkit
(`Assets/UPAToolkit/Editor/UPAImage.cs`). The model covers:

- the image's size;
- its list of layers, each carrying a rank (`order`), an `enabled` switch and a pixel store;
- the flattened image cached in `finalImg` and the `dirty` flag that says the cache is stale;
- the zoom (`gridSpacing`) and pan (`gridOffsetX`, `gridOffsetY`) of the editor view;
- the index of the selected layer.

The operations covered are:

- building the image (`Init`);
- adding and removing layers;
- sorting the layers by rank;
- blending the layers of one pixel;
- rebuilding or reusing the flattened image;
- computing the image's rectangle on screen;
- mapping a screen position to a pixel;
- reading and painting the pixel under a screen position.

The model is split into five modules, one per file:

- `Colors` (`colors.dfy`): the colour record and the blend step `Over`. The blend step is the
  per-channel formula `src + dst * (1 - src.a)` of `GetBlendedPixel`, alpha included. It is the
  Porter-Duff "source over" operator for premultiplied colours (section 9.1.4 of W3C Compositing
  and Blending Level 1), but the code applies it to the colours exactly as stored.
- `Layers` (`layers.dfy`): the layer record and the stable sort by rank that
  `SortLayersByOrder` performs with `OrderBy`.
  - `SortByOrder` is an insertion sort, proved to be a permutation, sorted and stable.
  - A sorted, stable rearrangement is shown to be unique (`SortedUnique`). From this follow
    idempotence and independence from how ranks are interleaved in storage.
- `Compositing` (`compositing.dfy`): `Composite`, the colour of a pixel of a layer list. It
  starts from clear and lays every enabled layer over the result, bottom first.
- `Geometry` (`geometry.dfy`): rectangles, C#'s truncating `(int)` cast, and the mapping
  `PixelCoordinate` from a screen position to a pixel.
  - A position is proved to map to the pixel whose screen cell holds it, and to no other.
  - Every pixel's cell centre maps back to that pixel.
  - The `(-1, -1)` sentinel is returned exactly for positions off the image.
- `ImageModel` (`image.dfy`): the class `UPAImage` with the fields of the source. Its methods
  update those fields in place. `GetBlendedPixel` and `GetFinalImage` keep the source's loops:
  - `GetBlendedPixel` re-sorts `layers` (the side effect the code has), then accumulates the
    blend in a loop proved equal to `Composite` of the sorted list.
  - `GetFinalImage` fills a fresh two-dimensional array in nested loops. Every entry is proved
    to be `Composite` of the sorted list at that pixel.

Inputs the code takes from its surroundings become parameters:

- the editor window's size, which `GetImgRect` reads from a global, becomes `viewW` and `viewH`;
- the rank a new layer receives from the `UPALayer` constructor becomes `order`.

An out-of-range list index, which raises `ArgumentOutOfRangeException` in C#, is the
`IndexOutOfRange` result.

The rows of a pixel are computed as in the code: `(int)(height * relY) - 1` with a non-positive
`relY`. A position inside the image therefore maps to a row in [-height, -1], counted -1, -2, ...
down from the top edge of the rectangle. The model keeps these values exactly.

Read as premultiplied colours, half-transparent blue (0, 0, 1, 0.5) over opaque red would give
(0.5, 0, 0.5, 1). The code takes the blue channel whole and gives (0.5, 0, 1, 1)
(`Colors.HalfBlueOverRed`).

For the same reason, a pixel whose alpha is 0 is not necessarily invisible. Its colour channels are
still added to the colour below, so it leaves that colour unchanged only if its colour channels are 0
too (`Colors.AlphaZeroInvisibleOnlyIfClear`, `Colors.AlphaZeroSourceIsVisible`).

## Model

| member | source | states |
|---|---|---|
| Colors.Over | Assets/UPAToolkit/Editor/UPAImage.cs:117-122 | the blend step: an opaque source replaces the colour below; over a clear colour the source is taken as is; a clear source changes nothing; a fully transparent source keeps the alpha below |
| Colors.OverKeepsPremultiplied | Assets/UPAToolkit/Editor/UPAImage.cs:117-120 | over premultiplied colours (each channel in [0, alpha], alpha in [0, 1]) the blend yields a premultiplied colour |
| Colors.OverKeepsAlphaInUnitRange | Assets/UPAToolkit/Editor/UPAImage.cs:120 | with both alphas in [0, 1] the blended alpha is in [0, 1], whatever the colour channels |
| Colors.OverOfStraightColoursCanOverflow | Assets/UPAToolkit/Editor/UPAImage.cs:117-120 | some pair of colours with every channel in [0, 1] blends to a colour outside [0, 1], because the formula is applied to straight colours |
| Colors.AlphaZeroSourceIsVisible | Assets/UPAToolkit/Editor/UPAImage.cs:117-119 | some pixel of alpha 0 changes the colour it is laid over, because its colour channels are added whole |
| Colors.AlphaZeroInvisibleOnlyIfClear | Assets/UPAToolkit/Editor/UPAImage.cs:117-120 | a pixel of alpha 0 leaves every colour below it unchanged if and only if it is clear |
| Colors.HalfBlueOverRed | Assets/UPAToolkit/Editor/UPAImage.cs:117-122 | (0, 0, 1, 0.5) over (1, 0, 0, 1) gives (0.5, 0, 1, 1) |
| Layers.Layer.At | Assets/UPAToolkit/Editor/UPAImage.cs:110 | a pixel never written reads as clear |
| Layers.Layer.Put | Assets/UPAToolkit/Editor/UPAImage.cs:84 | writing a pixel sets that pixel to the colour and leaves the layer's rank, its enabled switch and every other pixel unchanged |
| Layers.Blank | Assets/UPAToolkit/Editor/UPAImage.cs:190 | a new layer is enabled, has the rank it is given and is clear at every pixel |
| Layers.SortByOrder | Assets/UPAToolkit/Editor/UPAImage.cs:129 | keeps the length of the list; by the lemmas below it is a permutation of the list, sorted by ascending rank and stable, and the only such rearrangement |
| Layers.WithOrderMembers | Assets/UPAToolkit/Editor/UPAImage.cs:129 | the run of rank k holds exactly the layers of the list whose rank is k |
| Layers.SortByOrderPermutes | Assets/UPAToolkit/Editor/UPAImage.cs:129 | the sorted list is a permutation of the original (same multiset, same length) |
| Layers.SortByOrderSorted | Assets/UPAToolkit/Editor/UPAImage.cs:129 | the sorted list is non-decreasing in rank |
| Layers.SortByOrderStable | Assets/UPAToolkit/Editor/UPAImage.cs:129 | layers of equal rank keep their relative order |
| Layers.SortedUnique | Assets/UPAToolkit/Editor/UPAImage.cs:129 | two sorted lists with the same run for every rank are equal, so a stable sort has only one possible result |
| Layers.SortByOrderOfSorted | Assets/UPAToolkit/Editor/UPAImage.cs:129 | sorting an already sorted list leaves it unchanged |
| Layers.SortByOrderIdempotent | Assets/UPAToolkit/Editor/UPAImage.cs:128-130 | sorting twice gives the same list as sorting once |
| Layers.SortByOrderIgnoresStorageOrder | Assets/UPAToolkit/Editor/UPAImage.cs:129 | lists that agree on the run of every rank sort to the same list, however the ranks are interleaved |
| Layers.InsertAfterWithOrder | Assets/UPAToolkit/Editor/UPAImage.cs:191 | into a sorted list, a layer inserted after all layers of rank not above its own joins the back of its rank's run; the other runs are untouched |
| Layers.SortAppendIsInsertAfter | Assets/UPAToolkit/Editor/UPAImage.cs:191 | sorting a list with a layer appended places that layer after every layer of rank not above its own; the rest stay in sorted order |
| Compositing.Enabled | Assets/UPAToolkit/Editor/UPAImage.cs:107-108 | the layers the blend uses are exactly the enabled layers of the list |
| Compositing.Composite | Assets/UPAToolkit/Editor/UPAImage.cs:104-123 | the colour of one pixel of a layer list, starting from clear and laying each enabled layer over it, bottom first. It is the reference that `GetBlendedPixel`'s loop is proved equal to, and the lemmas below give its properties: disabled layers are skipped, a single enabled layer shows as itself, an opaque top hides everything below, a clear layer is invisible anywhere, and ranges are kept |
| Compositing.CompositeOfEnabled | Assets/UPAToolkit/Editor/UPAImage.cs:106-108 | disabled layers are skipped: a list blends as its enabled layers alone do |
| Compositing.SingleEnabledLayer | Assets/UPAToolkit/Editor/UPAImage.cs:101-125 | with a single enabled layer the blended pixel is that layer's pixel |
| Compositing.OpaqueTopHidesBelow | Assets/UPAToolkit/Editor/UPAImage.cs:101-125 | if the last enabled layer's pixel has alpha 1, the blended pixel is that pixel |
| Compositing.ClearLayerIsInvisible | Assets/UPAToolkit/Editor/UPAImage.cs:106-123 | a layer that is disabled, or clear at (x, y), can be inserted at any position without changing the colour at (x, y) |
| Compositing.CompositeKeepsPremultiplied | Assets/UPAToolkit/Editor/UPAImage.cs:104-123 | if every enabled pixel is premultiplied, so is the blended pixel |
| Compositing.CompositeAlphaInUnitRange | Assets/UPAToolkit/Editor/UPAImage.cs:104-123 | if every enabled alpha is in [0, 1], so is the blended alpha |
| Compositing.AddedClearLayerIsInvisible | Assets/UPAToolkit/Editor/UPAImage.cs:185-192 | appending a layer that is disabled, or clear at (x, y), leaves the colour at (x, y) of the sorted list unchanged |
| Geometry.Trunc | Assets/UPAToolkit/Editor/UPAImage.cs:154-155 | the cast truncates toward zero: the floor for non-negative values, the ceiling for non-positive ones |
| Geometry.Rect.Contains | Assets/UPAToolkit/Editor/UPAImage.cs:147 | a rectangle holds a position only if its width and height are positive; the near edges are inside and the far edges outside |
| Geometry.Column | Assets/UPAToolkit/Editor/UPAImage.cs:151-154 | for a position within the image's horizontal span the column is in [0, width); by `ColumnIsStrip` and `ColumnOfCentre` it is the strip holding the position, and each column's centre maps back to it |
| Geometry.Row | Assets/UPAToolkit/Editor/UPAImage.cs:152-155 | for a position within the image's vertical span the row is in [-height, -1]; by `RowIsStrip` and `RowOfCentre`, minus one minus the row is the strip counted from the top edge, and each row's centre maps back to it |
| Geometry.ColumnIsStrip | Assets/UPAToolkit/Editor/UPAImage.cs:151-154 | for a position inside the image's span, the column is in [0, width) and is the strip of the span holding the position |
| Geometry.RowIsStrip | Assets/UPAToolkit/Editor/UPAImage.cs:152-155 | for a position inside the image's span, the row is in [-height, -1]; minus one minus the row is the strip, counted from the top edge, holding the position |
| Geometry.PixelCoordinate | Assets/UPAToolkit/Editor/UPAImage.cs:144-158 | the sentinel (-1, -1) exactly for positions outside the rectangle; inside it, a column in [0, width) and a row in [-height, -1], so never the sentinel |
| Geometry.PixelCoordinateIsCell | Assets/UPAToolkit/Editor/UPAImage.cs:144-157 | a position inside the rectangle lies in the screen cell of the pixel it maps to |
| Geometry.PixelCoordinateIsOnlyCell | Assets/UPAToolkit/Editor/UPAImage.cs:144-157 | inside the rectangle, a pixel's cell holds the position if and only if that pixel is the one the position maps to |
| Geometry.ColumnOfCentre | Assets/UPAToolkit/Editor/UPAImage.cs:151-154 | the centre of column k lies within the image's span and maps back to column k |
| Geometry.RowOfCentre | Assets/UPAToolkit/Editor/UPAImage.cs:152-155 | the centre of row y lies within the image's span and maps back to row y |
| Geometry.PixelCoordinateOfCellCentre | Assets/UPAToolkit/Editor/UPAImage.cs:144-157 | every pixel in range is reachable: the centre of its cell lies inside the rectangle and maps back to it |
| Geometry.RemapIsStable | Assets/UPAToolkit/Editor/UPAImage.cs:144-157 | mapping a position, then mapping the centre of the resulting cell, gives the same pixel |
| ImageModel.Clamp | Assets/UPAToolkit/Editor/UPAImage.cs:36 | the clamped value lies in [lo, hi], and equals the input when the input is already in range |
| ImageModel.ClampIsNearest | Assets/UPAToolkit/Editor/UPAImage.cs:36 | the clamped value is the point of [lo, hi] nearest to the input |
| ImageModel.AspectKept | Assets/UPAToolkit/Editor/UPAImage.cs:134-136 | the rectangle's height is positive and is to its width as the image's height is to its width |
| ImageModel.InitialImageIsClear | Assets/UPAToolkit/Editor/UPAImage.cs:63-73 | the layer list `Init` leaves blends to clear at every pixel |
| ImageModel.RemoveLastUndoesAdd | Assets/UPAToolkit/Editor/UPAImage.cs:185-203 | removing the last layer after adding one restores the layer list |
| ImageModel.UPAImage.constructor | Assets/UPAToolkit/Editor/UPAImage.cs:23-60 | field defaults: grid spacing 20, no pan, layer 0 selected, no cache, not dirty |
| ImageModel.UPAImage.GridSpacing | Assets/UPAToolkit/Editor/UPAImage.cs:35 | the value read is in [1, 141] |
| ImageModel.UPAImage.SetGridSpacing | Assets/UPAToolkit/Editor/UPAImage.cs:36 | the stored value is the input clamped to [0, 140]; an input in range reads back plus one |
| ImageModel.UPAImage.Init | Assets/UPAToolkit/Editor/UPAImage.cs:63-73 | sets the size, leaves exactly one new layer, and sets `dirty` |
| ImageModel.UPAImage.GetImgRect | Assets/UPAToolkit/Editor/UPAImage.cs:133-142 | the rectangle is 30 to 4230 units wide and of positive height; it has the image's aspect ratio; it is centred in the view, shifted by the pan and 20 units down |
| ImageModel.UPAImage.GetPixelCoordinate | Assets/UPAToolkit/Editor/UPAImage.cs:144-158 | the sentinel exactly off the image rectangle; otherwise a pixel in range |
| ImageModel.UPAImage.GetPixelByPos | Assets/UPAToolkit/Editor/UPAImage.cs:91-99 | clear off the image; an out-of-range error exactly for a position on the image with a bad layer index; otherwise the layer's colour at the pixel whose cell holds the position |
| ImageModel.UPAImage.SetPixelByPos | Assets/UPAToolkit/Editor/UPAImage.cs:76-88 | off the image nothing changes, not even `dirty`; a bad layer index raises with nothing changed; otherwise exactly one pixel of that layer is set, `dirty` is raised, and reading the position back gives the colour |
| ImageModel.UPAImage.SortLayersByOrder | Assets/UPAToolkit/Editor/UPAImage.cs:128-130 | the new list is a sorted permutation of the old one and keeps the order within every rank |
| ImageModel.UPAImage.GetBlendedPixel | Assets/UPAToolkit/Editor/UPAImage.cs:101-126 | the layers end up sorted; the colour returned is that of the sorted list at (x, y) |
| ImageModel.UPAImage.GetFinalImage | Assets/UPAToolkit/Editor/UPAImage.cs:160-176 | with a cache that is clean, or with no update asked, it returns the cache and changes nothing. Otherwise it returns a fresh width x height image, now the cache, whose pixel (x, y) is the blend of the sorted layers there; `dirty` is cleared |
| ImageModel.UPAImage.AddLayer | Assets/UPAToolkit/Editor/UPAImage.cs:185-192 | one new layer is appended last, the earlier layers keep their indices, and `dirty` is set |
| ImageModel.UPAImage.RemoveLayerAt | Assets/UPAToolkit/Editor/UPAImage.cs:194-203 | `dirty` is set. For an index in range, exactly that layer is removed, the rest keep their order, and the selection drops by one only if it was that index. Otherwise it raises with the list and the selection unchanged |

## Left out

- Unity editor bookkeeping (`EditorUtility.SetDirty`, `Undo.RecordObject`) is not modelled. It calls into the host editor and does not affect the image's own state. The exception raised for a bad layer index by the list indexer `layers[layer]`, evaluated as an argument of that call, is kept, as `IndexOutOfRange`.
- The editor window (`UPAEditorWindow.window.position`) is not part of this model. Its width and height are the parameters `viewW` and `viewH`.
- `UPALayer` is not part of this model:
  - Its constructor's choice of rank is the parameter `order`.
  - A new layer is taken to be enabled and clear at every pixel (`Layers.Blank`); what the constructor actually sets is not modelled.
  - Its pixel storage is an abstract store from coordinates to colours, where an unwritten pixel reads as clear.
  - How its texture treats the negative rows produced by the mapping (wrapping, clamping or rejecting) is not modelled. A pixel painted at row -k is therefore not related to the pixel the flattening reads at row height - k. As a consequence, `SetPixelByPos` writes only rows -height to -1 while `GetFinalImage` reads rows 0 to height - 1, so in every state the model can reach the flattened image is clear.
- `LoadAllTexsFromMaps` is not modelled: all it does is delegate to `UPALayer.LoadTexFromMap`, which is not part of this model.
- Layers are values in the model. The source's list holds references, so a layer painted through one reference is seen through any other; that sharing is not modelled.
- `Texture2D` is modelled as a two-dimensional array of colours. Not modelled: its initial contents (every pixel is overwritten), `filterMode`, `Apply`, and the GPU upload.
- ImageModel.UPAImage.GetFinalImage stores each blended colour exactly. The source's `new Texture2D(width, height)` is an 8-bit RGBA texture, whose `SetPixel` clamps every channel to [0, 1] and rounds it to 1/255. The contract therefore matches the code only for blends with every channel in [0, 1]; the overflow that `Colors.OverOfStraightColoursCanOverflow` exhibits would be clamped in the real cache.
- Floating point is modelled as exact real arithmetic. Not modelled: rounding, infinities and NaN.
- The `Vector2` round trip of the pixel coordinate (int to float and back) is modelled as exact, which it is for pixel indices of realistic size.
- ImageModel.UPAImage.GetImgRect, GetPixelCoordinate, GetPixelByPos and SetPixelByPos require a positive width and height. The code divides by the width (giving infinity or NaN in floating point for a zero width), and with a zero height the rectangle is empty. Neither case is modelled.
- ImageModel.UPAImage.GetFinalImage requires a non-negative width and height, which `new Texture2D` needs.
- Before `Init` the source's `layers` is null, so `AddLayer` would raise a null-reference exception. The model starts from an empty list.
- `selectedColor`, `tool` and `gridBGIndex` have no behaviour in this class and are not modelled.
