/** The AutixSurf compositor: overlapping layers drawn in z-order into one buffer. */
module Compositor {

  import opened Pixels
  import opened Wrappers

  const MAX_SURFACES: nat := 32
  const APP: int := 1
  const TITLE_HEIGHT: nat := 16

  /** `pixels` is the mapped memory of the layer, row after row. */
  datatype Layer = Layer(id: int, memfd: int, pixels: Option<seq<Color>>, x: int, y: int, w: int, h: int,
                         zOrder: int, kind: int, active: bool)
  {
    /** What a layer drawn by the compositor looks like once spawned. */
    predicate WellSized() { pixels.Some? ==> w > 0 && h > 0 && |pixels.value| == w * h }

    predicate Covers(tx: int, ty: int) { x <= tx < x + w && y <= ty < y + h }

    predicate Shows(tx: int, ty: int) { active && pixels.Some? && 0 <= zOrder < MAX_SURFACES && Covers(tx, ty) }

    function TitleHeight(): int { if TITLE_HEIGHT > h then h else TITLE_HEIGHT }

    predicate IsTitle(ty: int) { kind == APP && ty - y < TitleHeight() }

    /** The colour a covering layer gives a position: the title bar over its first rows, its pixels elsewhere. */
    function ColourAt(tx: int, ty: int): Color
      requires WellSized() && pixels.Some? && Covers(tx, ty)
    {
      if IsTitle(ty) then TitleGradient(ty - y, TitleHeight()) else PixelAt(tx, ty)
    }

    function PixelAt(tx: int, ty: int): Color
      requires WellSized() && pixels.Some? && Covers(tx, ty)
    {
      AtIsInside(w, h, tx - x, ty - y);
      pixels.value[At(w, tx - x, ty - y)]
    }
  }

  // ---------------------------------------------------------------- the title gradient

  /** Division of C, which drops the fraction. */
  function Quotient(a: int, b: int): int
    requires b > 0
  {
    if a >= 0 then a / b else -((-a) / b)
  }

  function Channel(top: int, bottom: int, y: nat, height: nat): int
    requires height > 1
  {
    top + Quotient((bottom - top) * y, height - 1)
  }

  /** A channel goes from `top` to `bottom`, never up, each row being rounded up from the straight line. */
  lemma ChannelFades(top: int, bottom: int, y: nat, height: nat)
    requires height > 1 && y < height && 0 <= bottom <= top
    ensures bottom <= Channel(top, bottom, y, height) <= top
    ensures y == 0 ==> Channel(top, bottom, y, height) == top
    ensures y == height - 1 ==> Channel(top, bottom, y, height) == bottom
    ensures var fallen := top - Channel(top, bottom, y, height);
            fallen * (height - 1) <= (top - bottom) * y < (fallen + 1) * (height - 1)
  {
    hide Channel;
    ChannelIs(top, bottom, y, height);
    Fallen(top - bottom, y, height - 1);
  }

  lemma Fallen(d: nat, y: nat, n: nat)
    requires y <= n && n > 0
    ensures var fallen := d * y / n;
      fallen * n <= d * y < (fallen + 1) * n && fallen <= d && (y == 0 ==> fallen == 0) && (y == n ==> fallen == d)
  {
    Divided(d * y, n);
    FallenWithin(d, y, n, d * y / n);
  }

  lemma ChannelIs(top: int, bottom: int, y: nat, height: nat)
    requires height > 1 && bottom <= top
    ensures (top - bottom) * y >= 0
    ensures Channel(top, bottom, y, height) == top - (top - bottom) * y / (height - 1)
  {
    hide Quotient;
    var x := (top - bottom) * y;
    assert (bottom - top) * y == -x;
    QuotientOfNegative(x, height - 1);
  }

  lemma QuotientOfNegative(x: int, n: int)
    requires n > 0 && x >= 0
    ensures Quotient(-x, n) == -(x / n)
  {}

  lemma FallenWithin(d: nat, y: nat, n: nat, fallen: nat)
    requires y <= n && n > 0 && fallen * n <= d * y < (fallen + 1) * n
    ensures fallen <= d && (y == 0 ==> fallen == 0) && (y == n ==> fallen == d)
  {
    Monotone(y, n, d);
    Spread(d, fallen, n);
    if y == n { Spread(fallen, d, n); }
    if y == 0 { Spread(0, fallen, n); }
  }

  lemma Divided(a: nat, n: nat)
    requires n > 0
    ensures (a / n) * n <= a < (a / n + 1) * n
  {
    assert a == (a / n) * n + a % n;
    assert (a / n + 1) * n == (a / n) * n + n;
  }

  lemma Monotone(y: nat, n: nat, d: nat)
    requires y <= n
    ensures d * y <= d * n
  {
    assert d * n == d * y + d * (n - y);
  }

  function TitleGradient(y: int, height: int): (c: Color)
    requires 0 <= y < height
  {
    if height <= 1 then 0xFF58A858 else
    ChannelFades(0x58, 0x14, y, height);
    ChannelFades(0xA8, 0x52, y, height);
    Argb(Channel(0x58, 0x14, y, height), Channel(0xA8, 0x52, y, height), Channel(0x58, 0x14, y, height))
  }

  /** An opaque colour; the channels do not overlap, so `|` adds them. */
  function Argb(r: int, g: int, b: int): Color
    requires 0 <= r < 0x100 && 0 <= g < 0x100 && 0 <= b < 0x100
  {
    0xFF000000 + r * 0x10000 + g * 0x100 + b
  }

  function Red(c: Color): int { c / 0x10000 % 0x100 }
  function Green(c: Color): int { c / 0x100 % 0x100 }
  function Blue(c: Color): int { c % 0x100 }

  /** The bar starts at 58A858 and, unless it has one row only, ends at 145214; no channel ever gets brighter. */
  lemma GradientFades(y: int, height: int)
    requires 0 <= y < height
    ensures y == 0 ==> TitleGradient(y, height) == 0xFF58A858
    ensures y == height - 1 > 0 ==> TitleGradient(y, height) == 0xFF145214
    ensures y > 0 ==> var (above, here) := (TitleGradient(y - 1, height), TitleGradient(y, height));
                      Red(here) <= Red(above) && Green(here) <= Green(above) && Blue(here) <= Blue(above)
  {
    hide Channel, Argb, Red, Green, Blue;
    if height > 1 {
      Fades(0x58, 0x14, y, height);
      Fades(0xA8, 0x52, y, height);
      Channels(Channel(0x58, 0x14, y, height), Channel(0xA8, 0x52, y, height));
      if y > 0 { Channels(Channel(0x58, 0x14, y - 1, height), Channel(0xA8, 0x52, y - 1, height)); }
    }
  }

  /** Each channel of a row lies on the straight line from the first row to the last, rounded up to a whole value. */
  lemma GradientIsStraight(y: int, height: int)
    requires 0 <= y < height && height > 1
    ensures var c := TitleGradient(y, height);
      c / 0x1000000 == 0xFF &&
      (88 - Red(c)) * (height - 1) <= 68 * y < (89 - Red(c)) * (height - 1) &&
      (168 - Green(c)) * (height - 1) <= 86 * y < (169 - Green(c)) * (height - 1) &&
      (88 - Blue(c)) * (height - 1) <= 68 * y < (89 - Blue(c)) * (height - 1)
  {
    hide Channel, Argb, Red, Green, Blue;
    ChannelFades(0x58, 0x14, y, height);
    ChannelFades(0xA8, 0x52, y, height);
    Channels(Channel(0x58, 0x14, y, height), Channel(0xA8, 0x52, y, height));
  }

  lemma Channels(rb: int, g: int)
    requires 0 <= rb < 0x100 && 0 <= g < 0x100
    ensures var c := Argb(rb, g, rb); Red(c) == rb && Green(c) == g && Blue(c) == rb && c / 0x1000000 == 0xFF
    ensures Argb(0x58, 0xA8, 0x58) == 0xFF58A858 && Argb(0x14, 0x52, 0x14) == 0xFF145214
  {
    var c := Argb(rb, g, rb);
    assert c / 0x100 == 0xFF0000 + rb * 0x100 + g;
    assert c / 0x10000 == 0xFF00 + rb;
  }

  lemma Fades(top: int, bottom: int, y: nat, height: nat)
    requires height > 1 && y < height && 0 <= bottom <= top < 0x100
    ensures bottom <= Channel(top, bottom, y, height) <= top
    ensures y == 0 ==> Channel(top, bottom, y, height) == top
    ensures y == height - 1 ==> Channel(top, bottom, y, height) == bottom
    ensures y > 0 ==> bottom <= Channel(top, bottom, y, height) <= Channel(top, bottom, y - 1, height) <= top
  {
    hide Channel;
    ChannelFades(top, bottom, y, height);
    if y > 0 {
      ChannelFades(top, bottom, y - 1, height);
      var (above, here) := (Channel(top, bottom, y - 1, height), Channel(top, bottom, y, height));
      Monotone(y - 1, y, top - bottom);
      Spread(top - here + 1, top - above + 1, height - 1);
      Spread(top - here, top - above, height - 1);
    }
  }

  // ---------------------------------------------------------------- what a position shows

  predicate AllWellSized(layers: seq<Layer>) { forall i :: 0 <= i < |layers| ==> layers[i].WellSized() }

  /** Slot i comes before step (z, n) of the sweep over z-orders and slots. */
  predicate Before(layers: seq<Layer>, i: nat, z: int, n: nat)
    requires i < |layers|
  {
    layers[i].zOrder < z || (layers[i].zOrder == z && i < n)
  }

  /** Slot i is the greatest, by z-order and then slot, of those that show and come before step (z, n). */
  predicate IsTop(layers: seq<Layer>, z: int, n: nat, i: nat, tx: int, ty: int) {
    i < |layers| && layers[i].Shows(tx, ty) && Before(layers, i, z, n)
    && forall j: nat :: j < |layers| && layers[j].Shows(tx, ty) && Before(layers, j, z, n)
         ==> layers[j].zOrder < layers[i].zOrder || (layers[j].zOrder == layers[i].zOrder && j <= i)
  }

  /** The topmost of all layers that cover a position. */
  predicate IsTopmost(layers: seq<Layer>, i: nat, tx: int, ty: int) {
    i < |layers| && layers[i].Shows(tx, ty)
    && forall j: nat :: j < |layers| && layers[j].Shows(tx, ty)
         ==> layers[j].zOrder < layers[i].zOrder || (layers[j].zOrder == layers[i].zOrder && j <= i)
  }

  /** What the composite shows: the colour of the topmost layer there, or 0. */
  ghost function Composite(layers: seq<Layer>, tx: int, ty: int): Color
    requires AllWellSized(layers)
  {
    if i: nat :| IsTopmost(layers, i, tx, ty) then layers[i].ColourAt(tx, ty) else 0
  }

  lemma TopIsUnique(layers: seq<Layer>, i: nat, j: nat, tx: int, ty: int)
    requires IsTopmost(layers, i, tx, ty) && IsTopmost(layers, j, tx, ty)
    ensures i == j
  {}

  /** Wherever some layer shows, one is topmost. */
  lemma TopmostExists(layers: seq<Layer>, i: nat, tx: int, ty: int) returns (top: nat)
    requires i < |layers| && layers[i].Shows(tx, ty)
    ensures IsTopmost(layers, top, tx, ty)
    decreases MAX_SURFACES - layers[i].zOrder, |layers| - i
  {
    if IsTopmost(layers, i, tx, ty) {
      top := i;
    } else {
      var j: nat :| j < |layers| && layers[j].Shows(tx, ty)
                 && !(layers[j].zOrder < layers[i].zOrder || (layers[j].zOrder == layers[i].zOrder && j <= i));
      top := TopmostExists(layers, j, tx, ty);
    }
  }

  /**
   * The composite is the colour of any layer that covers the position and has none above it, and 0 if none covers it.
   */
  lemma CompositeIsTopmost(layers: seq<Layer>, tx: int, ty: int)
    requires AllWellSized(layers)
    ensures forall i: nat :: IsTopmost(layers, i, tx, ty) ==> Composite(layers, tx, ty) == layers[i].ColourAt(tx, ty)
    ensures (forall i: nat :: i < |layers| ==> !layers[i].Shows(tx, ty)) ==> Composite(layers, tx, ty) == 0
    ensures (exists i: nat :: i < |layers| && layers[i].Shows(tx, ty)) ==> exists i: nat :: IsTopmost(layers, i, tx, ty)
  {
    forall i: nat | IsTopmost(layers, i, tx, ty) ensures Composite(layers, tx, ty) == layers[i].ColourAt(tx, ty) {
      forall j: nat | IsTopmost(layers, j, tx, ty) ensures j == i { TopIsUnique(layers, i, j, tx, ty); }
    }
    if i: nat :| i < |layers| && layers[i].Shows(tx, ty) {
      var top := TopmostExists(layers, i, tx, ty);
    }
  }

  /** What a position shows depends on nothing but the layers that show there. */
  lemma CompositeIsLocal(layers: seq<Layer>, others: seq<Layer>, tx: int, ty: int)
    requires AllWellSized(layers) && AllWellSized(others) && |layers| == |others|
    requires forall i :: 0 <= i < |layers| ==>
               layers[i] == others[i] || (!layers[i].Shows(tx, ty) && !others[i].Shows(tx, ty))
    ensures Composite(layers, tx, ty) == Composite(others, tx, ty)
  {
    hide Layer.ColourAt, Layer.Shows;
    forall i: nat ensures IsTopmost(layers, i, tx, ty) <==> IsTopmost(others, i, tx, ty) {}
    CompositeIsTopmost(layers, tx, ty);
    CompositeIsTopmost(others, tx, ty);
  }

  // ---------------------------------------------------------------- the sweep

  /** What the sweep has left at a position before step (z, n). */
  ghost function Swept(layers: seq<Layer>, z: int, n: nat, tx: int, ty: int): Color
    requires AllWellSized(layers)
  {
    if i: nat :| IsTop(layers, z, n, i, tx, ty) then layers[i].ColourAt(tx, ty) else 0
  }

  lemma SweepStarts(layers: seq<Layer>, tx: int, ty: int)
    requires AllWellSized(layers)
    ensures Swept(layers, 0, 0, tx, ty) == 0
  {}

  lemma SweepStep(layers: seq<Layer>, z: int, n: nat, tx: int, ty: int)
    requires AllWellSized(layers) && n < |layers|
    ensures Swept(layers, z, n + 1, tx, ty) == if layers[n].zOrder == z && layers[n].Shows(tx, ty)
                                               then layers[n].ColourAt(tx, ty) else Swept(layers, z, n, tx, ty)
  {
    hide Layer.ColourAt, Layer.Shows;
    if layers[n].zOrder == z && layers[n].Shows(tx, ty) {
      var m := n + 1;
      assert IsTop(layers, z, m, n, tx, ty);
      forall i: nat | IsTop(layers, z, m, i, tx, ty) ensures i == n {}
    } else {
      SameTops(layers, z, n, z, n + 1, tx, ty);
    }
  }

  lemma SweepRound(layers: seq<Layer>, z: int, tx: int, ty: int)
    requires AllWellSized(layers)
    ensures Swept(layers, z, |layers|, tx, ty) == Swept(layers, z + 1, 0, tx, ty)
  {
    SameTops(layers, z, |layers|, z + 1, 0, tx, ty);
  }

  lemma SweepEnds(layers: seq<Layer>, tx: int, ty: int)
    requires AllWellSized(layers)
    ensures Swept(layers, MAX_SURFACES, 0, tx, ty) == Composite(layers, tx, ty)
  {
    hide Layer.ColourAt;
    forall i: nat ensures IsTop(layers, MAX_SURFACES, 0, i, tx, ty) <==> IsTopmost(layers, i, tx, ty) {}
    CompositeIsTopmost(layers, tx, ty);
  }

  lemma SameTops(layers: seq<Layer>, z: int, n: nat, y: int, m: nat, tx: int, ty: int)
    requires AllWellSized(layers)
    requires forall i: nat :: i < |layers| && layers[i].Shows(tx, ty) ==>
               (Before(layers, i, z, n) <==> Before(layers, i, y, m))
    ensures Swept(layers, z, n, tx, ty) == Swept(layers, y, m, tx, ty)
  {
    hide Layer.ColourAt, Layer.Shows, Before;
    forall i: nat ensures IsTop(layers, z, n, i, tx, ty) <==> IsTop(layers, y, m, i, tx, ty) {}
    forall i: nat, j: nat | IsTop(layers, z, n, i, tx, ty) && IsTop(layers, z, n, j, tx, ty) ensures i == j {}
  }

  // ---------------------------------------------------------------- drawing in place

  /** A slot without a layer, as it is at first and after its layer is destroyed. */
  function Blank(id: int): Layer { Layer(id, -1, None, 0, 0, 0, 0, 0, 0, false) }

  class Ctx {
    const width: int
    const height: int
    const compBuf: array<Color>
    const layers: array<Layer>

    /** AutixSurf_Initialize, its allocations having succeeded. */
    constructor (w: int, h: int)
      requires w > 0 && h > 0
      ensures Valid() && width == w && height == h
      ensures layers[..] == seq(MAX_SURFACES, i => Blank(i))
      ensures fresh(compBuf) && fresh(layers)
    {
      width, height := w, h;
      compBuf := new Color[w * h](_ => 0);
      layers := new Layer[MAX_SURFACES](i => Blank(i));
    }

    /** There is a cell for each position, and a pixel for each position of a layer. */
    ghost predicate Valid()
      reads layers
    {
      && width > 0 && height > 0 && compBuf.Length == width * height
      && layers.Length == MAX_SURFACES && AllWellSized(layers[..])
    }

    predicate OnScreen(tx: int, ty: int) { 0 <= tx < width && 0 <= ty < height }

    /** The cell of a position. */
    ghost function Shown(tx: int, ty: int): Color
      requires Valid() && OnScreen(tx, ty)
      reads layers, compBuf
    {
      AtIsInside(width, height, tx, ty);
      compBuf[At(width, tx, ty)]
    }

    /** memcpy of `n` words. */
    method MemCpy(at: nat, src: seq<Color>, from: nat, n: nat)
      requires at + n <= compBuf.Length && from + n <= |src|
      modifies compBuf
      ensures forall k :: 0 <= k < compBuf.Length ==>
                compBuf[k] == if at <= k < at + n then src[from + (k - at)] else old(compBuf[k])
    {
      var i := 0;
      while i < n
        invariant i <= n
        invariant forall k :: 0 <= k < compBuf.Length ==>
                    compBuf[k] == if at <= k < at + i then src[from + (k - at)] else old(compBuf[k])
      {
        compBuf[at + i] := src[from + i];
        i := i + 1;
      }
    }

    /** The positions of a row, and no other cells, are those of a run of words. */
    lemma CellsOfRow(x: nat, y: nat, n: nat, tx: int, ty: int)
      requires Valid() && x + n <= width && y < height && OnScreen(tx, ty)
      ensures At(width, x, y) + n <= compBuf.Length && At(width, tx, ty) < compBuf.Length
      ensures At(width, x, y) <= At(width, tx, ty) < At(width, x, y) + n <==> ty == y && x <= tx < x + n
      ensures ty == y ==> At(width, tx, ty) - At(width, x, y) == tx - x
    {
      RowIsInside(width, height, x, y, n);
      AtIsInside(width, height, tx, ty);
      Spread(y, ty, width);
      Spread(ty, y, width);
    }

    /** One round of the first loop of AutixSurf_DrawLayer: the part of a row of the layer that is on the screen. */
    method CopyRow(layer: Layer, sy: nat)
      requires Valid() && layer.WellSized() && layer.pixels.Some? && sy < layer.h
      modifies compBuf
      ensures forall tx, ty :: OnScreen(tx, ty) ==>
                Shown(tx, ty) == if ty == layer.y + sy && layer.Covers(tx, ty) then layer.PixelAt(tx, ty)
                                 else old(Shown(tx, ty))
    {
      hide At;
      var targetY := layer.y + sy;
      if targetY < 0 || targetY >= height {
        return;
      }
      var sourceX, targetX, w := 0, layer.x, layer.w;
      if targetX < 0 {
        sourceX := -targetX;
        w := w - sourceX;
        targetX := 0;
      }
      if targetX + w > width {
        w := width - targetX;
      }
      if w <= 0 {
        return;
      }
      RowIsInside(layer.w, layer.h, sourceX, sy, w);
      RowIsInside(width, height, targetX, targetY, w);
      MemCpy(At(width, targetX, targetY), layer.pixels.value, At(layer.w, sourceX, sy), w);
      forall tx, ty | OnScreen(tx, ty)
        ensures Shown(tx, ty) == if ty == targetY && layer.Covers(tx, ty) then layer.PixelAt(tx, ty)
                                 else old(Shown(tx, ty))
      {
        CellsOfRow(targetX, targetY, w, tx, ty);
      }
    }

    /** One round of the last loop of AutixSurf_DrawLayer. */
    method FillRow(layer: Layer, row: nat, color: Color)
      requires Valid() && row < layer.h && layer.w > 0
      modifies compBuf
      ensures forall tx, ty :: OnScreen(tx, ty) ==>
                Shown(tx, ty) == if ty == layer.y + row && layer.Covers(tx, ty) then color else old(Shown(tx, ty))
    {
      hide At;
      var targetY := layer.y + row;
      if targetY < 0 || targetY >= height {
        return;
      }
      var startX, endX := layer.x, layer.x + layer.w;
      if startX < 0 {
        startX := 0;
      }
      if endX > width {
        endX := width;
      }
      var tx := startX;
      while tx < endX
        invariant startX <= tx && (tx <= endX || tx == startX)
        invariant forall u, v :: OnScreen(u, v) ==>
                    Shown(u, v) == if v == targetY && startX <= u < tx then color else old(Shown(u, v))
      {
        AtIsInside(width, height, tx, targetY);
        forall u, v | OnScreen(u, v) && At(width, u, v) == At(width, tx, targetY) ensures u == tx && v == targetY {
          AtIsInjective(width, u, v, tx, targetY);
        }
        compBuf[At(width, tx, targetY)] := color;
        tx := tx + 1;
      }
    }

    /** A layer paints every position it covers, on the screen, with its colour there, and no other. */
    method DrawLayer(layer: Layer)
      requires Valid() && layer.WellSized()
      modifies compBuf
      ensures forall tx, ty :: OnScreen(tx, ty) ==>
                Shown(tx, ty) == if layer.active && layer.pixels.Some? && layer.Covers(tx, ty)
                                 then layer.ColourAt(tx, ty)
                                 else old(Shown(tx, ty))
    {
      hide TitleGradient, At;
      if !layer.active || layer.pixels.None? {
        return;
      }
      var sy := 0;
      while sy < layer.h
        invariant sy <= layer.h
        invariant forall tx, ty :: OnScreen(tx, ty) ==>
                    Shown(tx, ty) == if ty - layer.y < sy && layer.Covers(tx, ty) then layer.PixelAt(tx, ty)
                                     else old(Shown(tx, ty))
      {
        CopyRow(layer, sy);
        sy := sy + 1;
      }
      if layer.kind != APP {
        return;
      }
      var titleHeight := TITLE_HEIGHT;
      if titleHeight > layer.h {
        titleHeight := layer.h;
      }
      var ty := 0;
      while ty < titleHeight
        invariant ty <= titleHeight
        invariant forall u, v :: OnScreen(u, v) ==>
                    Shown(u, v) == if !layer.Covers(u, v) then old(Shown(u, v))
                                   else if v - layer.y < ty then TitleGradient(v - layer.y, titleHeight)
                                   else layer.PixelAt(u, v)
      {
        FillRow(layer, ty, TitleGradient(ty, titleHeight));
        ty := ty + 1;
      }
    }

    /** Main theorem: the sweep over 32 z-orders and 32 slots leaves at each position the topmost layer there. */
    method Compose()
      requires Valid()
      modifies compBuf
      ensures forall tx, ty :: OnScreen(tx, ty) ==> Shown(tx, ty) == Composite(layers[..], tx, ty)
    {
      hide At, Layer.Covers, Layer.ColourAt, Composite, Swept;
      forall k | 0 <= k < compBuf.Length {
        compBuf[k] := 0;
      }
      forall tx, ty | OnScreen(tx, ty) ensures Shown(tx, ty) == Swept(layers[..], 0, 0, tx, ty) {
        AtIsInside(width, height, tx, ty);
        SweepStarts(layers[..], tx, ty);
      }
      var z := 0;
      while z < MAX_SURFACES
        invariant z <= MAX_SURFACES
        invariant forall tx, ty :: OnScreen(tx, ty) ==> Shown(tx, ty) == Swept(layers[..], z, 0, tx, ty)
      {
        var i := 0;
        while i < MAX_SURFACES
          invariant i <= MAX_SURFACES
          invariant forall tx, ty :: OnScreen(tx, ty) ==> Shown(tx, ty) == Swept(layers[..], z, i, tx, ty)
        {
          forall tx, ty | OnScreen(tx, ty)
            ensures Swept(layers[..], z, i + 1, tx, ty) == if layers[i].zOrder == z && layers[i].Shows(tx, ty)
                      then layers[i].ColourAt(tx, ty) else Swept(layers[..], z, i, tx, ty)
          {
            SweepStep(layers[..], z, i, tx, ty);
          }
          if layers[i].active && layers[i].zOrder == z {
            DrawLayer(layers[i]);
          }
          i := i + 1;
        }
        forall tx, ty | OnScreen(tx, ty)
          ensures Swept(layers[..], z, MAX_SURFACES, tx, ty) == Swept(layers[..], z + 1, 0, tx, ty)
        {
          SweepRound(layers[..], z, tx, ty);
        }
        z := z + 1;
      }
      forall tx, ty | OnScreen(tx, ty)
        ensures Swept(layers[..], MAX_SURFACES, 0, tx, ty) == Composite(layers[..], tx, ty)
      {
        SweepEnds(layers[..], tx, ty);
      }
    }
  }
}
