/** The layer table of AutixSurf and the calls that clients make. */
module Surfaces {

  import opened Pixels
  import opened Compositor
  import opened Wrappers

  const FAILED: int := -1

  // ---------------------------------------------------------------- the table and the calls, as values

  /** The display size, and the layer table once there is one. */
  datatype Screen = Screen(width: int, height: int, layers: Option<seq<Layer>>)

  /** A slot holds a mapped layer that knows its slot, or nothing at all. */
  predicate SlotSound(layer: Layer, i: int) {
    if layer.active then layer.id == i && layer.pixels.Some? && layer.WellSized() else layer == Blank(i)
  }

  predicate TableSound(layers: seq<Layer>) {
    |layers| == MAX_SURFACES && forall i :: 0 <= i < MAX_SURFACES ==> SlotSound(layers[i], i)
  }

  predicate Sound(s: Screen) {
    s.width > 0 && s.height > 0 && (s.layers.Some? ==> TableSound(s.layers.value))
  }

  function Blanks(): (layers: seq<Layer>)
    ensures TableSound(layers)
  {
    seq(MAX_SURFACES, i => Blank(i))
  }

  function ActiveIds(layers: seq<Layer>): set<int> { set i | 0 <= i < |layers| && layers[i].active }

  /** The ids of the layers there are. */
  function Live(s: Screen): set<int> { if s.layers.None? then {} else ActiveIds(s.layers.value) }

  function FirstFree(layers: seq<Layer>, from: nat): (i: nat)
    requires from <= |layers|
    ensures from <= i <= |layers| && (i < |layers| ==> !layers[i].active)
    ensures forall j :: from <= j < i ==> layers[j].active
    decreases |layers| - from
  {
    if from == |layers| || !layers[from].active then from else FirstFree(layers, from + 1)
  }

  /**
   * A request for a layer. Whether the client passed both places for the results, whether the context could be
   * allocated, and the descriptor of the shared memory, if the system had any, come with it.
   */
  datatype Request = Request(outs: bool, x: int, y: int, w: int, h: int, zOrder: int, kind: int,
                             ready: bool, memory: Option<nat>)

  function Spawned(r: Request, id: int, fd: int): (layer: Layer)
    requires r.w > 0 && r.h > 0
    ensures SlotSound(layer, id) && layer.active
  {
    var size: nat := r.w * r.h;
    Layer(id, fd, Some(seq(size, _ => 0)), r.x, r.y, r.w, r.h, r.zOrder, r.kind, true)
  }

  function Spawn(s: Screen, r: Request): (Screen, int) {
    if !r.outs || r.w <= 0 || r.h <= 0 || (s.layers.None? && !r.ready) then (s, FAILED) else
    var layers := if s.layers.None? then Blanks() else s.layers.value;
    var i := FirstFree(layers, 0);
    if i == |layers| || r.memory.None? then (s.(layers := Some(layers)), FAILED)
    else (s.(layers := Some(layers[i := Spawned(r, i, r.memory.value)])), i)
  }

  function Destroy(s: Screen, id: int): (Screen, int) {
    if s.layers.None? || id < 0 || id >= |s.layers.value| || !s.layers.value[id].active then (s, FAILED)
    else (s.(layers := Some(s.layers.value[id := Blank(id)])), 0)
  }

  function SetSize(s: Screen, w: int, h: int): (Screen, int) {
    if w <= 0 || h <= 0 || s.layers.Some? then (s, FAILED) else (s.(width := w, height := h), 0)
  }

  /** A client writes to the memory of its layer, which it shares with the compositor. */
  function Paint(s: Screen, id: int, pixels: seq<Color>): (Screen, int) {
    if id !in Live(s) || s.layers.value[id].pixels.None? || |pixels| != |s.layers.value[id].pixels.value|
    then (s, FAILED)
    else (s.(layers := Some(s.layers.value[id := s.layers.value[id].(pixels := Some(pixels))])), 0)
  }

  // ---------------------------------------------------------------- single calls

  /** A layer has the place, kind and memory that a request asks for. */
  predicate AsksFor(layer: Layer, r: Request) {
    layer.active && layer.x == r.x && layer.y == r.y && layer.w == r.w && layer.h == r.h &&
    layer.zOrder == r.zOrder && layer.kind == r.kind && r.memory == Some(layer.memfd) && layer.memfd >= 0
  }

  /** A spawned layer gets the lowest free id; nothing else in the table changes. */
  lemma SpawnTakesLowest(s: Screen, r: Request)
    requires Sound(s)
    ensures var (n, id) := Spawn(s, r);
            && Sound(n)
            && (id == FAILED ==> Live(n) == Live(s))
            && (id != FAILED ==>
                  (0 <= id < MAX_SURFACES && id !in Live(s) && (forall i :: 0 <= i < id ==> i in Live(s))
                   && Live(n) == Live(s) + {id}
                   && forall i :: i in Live(s) ==> n.layers.value[i] == s.layers.value[i]))
  {
    hide Spawned;
    var (n, id) := Spawn(s, r);
    if id != FAILED {
      var layers := if s.layers.None? then Blanks() else s.layers.value;
      assert ActiveIds(layers) == Live(s);
      assert n.layers.value == layers[id := Spawned(r, id, r.memory.value)];
      assert ActiveIds(n.layers.value) == ActiveIds(layers) + {id};
    }
  }

  /** It is what the request asks for, and until its client draws all its pixels are 0. */
  lemma SpawnGivesWhatIsAsked(s: Screen, r: Request)
    requires Sound(s) && Spawn(s, r).1 != FAILED
    ensures var (n, id) := Spawn(s, r);
      r.w * r.h > 0 && id in Live(n) && AsksFor(n.layers.value[id], r) &&
      n.layers.value[id].pixels == Some(seq(r.w * r.h, _ => 0))
  {
    AtIsInside(r.w, r.h, 0, 0);
  }

  /** When a spawn fails. */
  lemma SpawnFailsIff(s: Screen, r: Request)
    requires Sound(s)
    ensures Spawn(s, r).1 == FAILED <==>
              !r.outs || r.w <= 0 || r.h <= 0 || (s.layers.None? && !r.ready) || r.memory.None?
              || (forall i :: 0 <= i < MAX_SURFACES ==> i in Live(s))
  {
    hide Spawned;
    if !(!r.outs || r.w <= 0 || r.h <= 0 || (s.layers.None? && !r.ready)) {
      var layers := if s.layers.None? then Blanks() else s.layers.value;
      assert ActiveIds(layers) == Live(s);
      assert 0 in Live(s) <==> layers[0].active;
      var i := FirstFree(layers, 0);
      assert i < MAX_SURFACES ==> i !in Live(s);
    }
  }

  lemma DestroyRemoves(s: Screen, id: int)
    requires Sound(s)
    ensures var (n, r) := Destroy(s, id);
            Sound(n) && (r == 0 <==> id in Live(s)) && (r != 0 ==> r == FAILED) && Live(n) == Live(s) - {id}
  {
    if id in Live(s) {
      assert ActiveIds(s.layers.value[id := Blank(id)]) == ActiveIds(s.layers.value) - {id};
    }
  }

  /** The slot of a destroyed layer keeps nothing but its number. */
  lemma DestroyForgets(s: Screen, id: int)
    requires Sound(s) && Destroy(s, id).1 == 0
    ensures Destroy(s, id).0.layers == Some(s.layers.value[id := Layer(id, -1, None, 0, 0, 0, 0, 0, 0, false)])
  {}

  lemma PaintKeeps(s: Screen, id: int, pixels: seq<Color>)
    requires Sound(s)
    ensures Sound(Paint(s, id, pixels).0) && Live(Paint(s, id, pixels).0) == Live(s)
  {
    if id in Live(s) && |pixels| == |s.layers.value[id].pixels.value| {
      assert ActiveIds(Paint(s, id, pixels).0.layers.value) == ActiveIds(s.layers.value);
    }
  }

  /** What the display shows at a position; without a context, and wherever no layer shows, that is 0. */
  ghost function Picture(s: Screen, tx: int, ty: int): Color
    requires Sound(s)
  {
    if s.layers.None? then 0 else Composite(s.layers.value, tx, ty)
  }

  lemma NoLayersNoPicture(tx: int, ty: int)
    ensures Composite(Blanks(), tx, ty) == 0
  {
    CompositeIsTopmost(Blanks(), tx, ty);
  }

  /**
   * Destroying a layer, whatever its client has drawn, puts back the very table from before it was spawned, and with it
   * the picture at every position, also when the layer was the first one.
   */
  lemma SpawnThenDestroy(s: Screen, r: Request, pixels: seq<Color>)
    requires Sound(s) && Spawn(s, r).1 != FAILED
    ensures var (with, id) := Spawn(s, r);
            var layers := if s.layers.None? then Blanks() else s.layers.value;
            Destroy(Paint(with, id, pixels).0, id) == (s.(layers := Some(layers)), 0)
    ensures var (with, id) := Spawn(s, r);
            var after := Destroy(Paint(with, id, pixels).0, id).0;
            Sound(after) && forall tx, ty :: Picture(after, tx, ty) == Picture(s, tx, ty)
  {
    hide Spawned, Composite;
    var (with, id) := Spawn(s, r);
    var layers := if s.layers.None? then Blanks() else s.layers.value;
    assert layers[id := with.layers.value[id]] == with.layers.value;
    var painted := Paint(with, id, pixels).0;
    assert painted.layers.value[id := Blank(id)] == layers;
    forall tx, ty ensures Composite(Blanks(), tx, ty) == 0 { NoLayersNoPicture(tx, ty); }
  }

  /** A layer changes the picture nowhere but in its rectangle, and nowhere at all if its z-order is not in 0..31. */
  lemma SpawnChangesItsRectangle(s: Screen, r: Request, tx: int, ty: int)
    requires Sound(s) && Spawn(s, r).1 != FAILED
    requires !(r.x <= tx < r.x + r.w && r.y <= ty < r.y + r.h) || !(0 <= r.zOrder < MAX_SURFACES)
    ensures Sound(Spawn(s, r).0) && Picture(Spawn(s, r).0, tx, ty) == Picture(s, tx, ty)
  {
    SpawnTakesLowest(s, r);
    NoLayersNoPicture(tx, ty);
    CompositeIsLocal(Spawn(s, r).0.layers.value, if s.layers.None? then Blanks() else s.layers.value, tx, ty);
  }

  /** A layer that shows at a position, above the place that z-order `z` and slot `id` have. */
  predicate ShowsAbove(layer: Layer, i: int, z: int, id: int, tx: int, ty: int) {
    layer.active && 0 <= layer.zOrder < 32 &&
    layer.x <= tx < layer.x + layer.w && layer.y <= ty < layer.y + layer.h &&
    (layer.zOrder > z || (layer.zOrder == z && i > id))
  }

  ghost predicate Covered(s: Screen, z: int, id: int, tx: int, ty: int)
    requires Sound(s)
  {
    exists i :: i in Live(s) && ShowsAbove(s.layers.value[i], i, z, id, tx, ty)
  }

  /** The rows of the title bar: 16 of an APP layer, or all if it has fewer. */
  function TitleRows(r: Request): int { if r.kind != 1 then 0 else if r.h < 16 then r.h else 16 }

  predicate Requested(r: Request, tx: int, ty: int) {
    0 <= r.zOrder < 32 && r.x <= tx < r.x + r.w && r.y <= ty < r.y + r.h
  }

  /** What a request asks to be shown in its rectangle: the bar, and below it what the client has drawn, row by row. */
  ghost function AsRequested(r: Request, pixels: seq<Color>, tx: int, ty: int): Color
    requires Requested(r, tx, ty) && |pixels| == r.w * r.h
  {
    AtIsInside(r.w, r.h, tx - r.x, ty - r.y);
    if ty - r.y < TitleRows(r) then TitleGradient(ty - r.y, TitleRows(r)) else pixels[(ty - r.y) * r.w + (tx - r.x)]
  }

  /**
   * The picture after a spawn, when the client has drawn its pixels: what the request asks for, wherever in its
   * rectangle no layer of greater z-order, or of the same and a later slot, shows; and the picture before elsewhere.
   */
  lemma SpawnShows(s: Screen, r: Request, pixels: seq<Color>, tx: int, ty: int)
    requires Sound(s) && Spawn(s, r).1 != FAILED && |pixels| == r.w * r.h
    ensures var (with, id) := Spawn(s, r);
      var after := Paint(with, id, pixels).0;
      Sound(after) && Live(after) == Live(s) + {id} &&
      Picture(after, tx, ty) == if Requested(r, tx, ty) && !Covered(s, r.zOrder, id, tx, ty)
                                then AsRequested(r, pixels, tx, ty) else Picture(s, tx, ty)
  {
    hide Composite, AsRequested, Layer.ColourAt;
    SpawnTakesLowest(s, r);
    var (with, id) := Spawn(s, r);
    PaintKeeps(with, id, pixels);
    var (old_, new_) := (if s.layers.None? then Blanks() else s.layers.value, Paint(with, id, pixels).0.layers.value);
    NoLayersNoPicture(tx, ty);
    assert new_ == old_[id := new_[id]];
    if !Requested(r, tx, ty) {
      CompositeIsLocal(new_, old_, tx, ty);
    } else if Covered(s, r.zOrder, id, tx, ty) {
      CoveredStays(s, old_, new_[id], r.zOrder, id, tx, ty);
    } else {
      assert IsTopmost(new_, id, tx, ty);
      CompositeIsTopmost(new_, tx, ty);
      PaintedColour(new_[id], r, pixels, tx, ty);
    }
  }

  /** A layer that is put below one that shows does not change the picture. */
  lemma CoveredStays(s: Screen, layers: seq<Layer>, layer: Layer, z: int, id: nat, tx: int, ty: int)
    requires Sound(s) && s.layers == Some(layers) && id < |layers| && id !in Live(s)
    requires layer.zOrder == z && AllWellSized(layers[id := layer]) && Covered(s, z, id, tx, ty)
    ensures Composite(layers[id := layer], tx, ty) == Composite(layers, tx, ty)
  {
    hide Composite, Layer.ColourAt;
    var i: nat :| i in Live(s) && ShowsAbove(layers[i], i, z, id, tx, ty);
    var top := TopmostExists(layers, i, tx, ty);
    assert IsTopmost(layers[id := layer], top, tx, ty);
    CompositeIsTopmost(layers, tx, ty);
    CompositeIsTopmost(layers[id := layer], tx, ty);
  }

  lemma PaintedColour(layer: Layer, r: Request, pixels: seq<Color>, tx: int, ty: int)
    requires Requested(r, tx, ty) && |pixels| == r.w * r.h && layer.pixels == Some(pixels) && layer.WellSized()
    requires layer.x == r.x && layer.y == r.y && layer.w == r.w && layer.h == r.h && layer.kind == r.kind
    ensures layer.Covers(tx, ty) && layer.ColourAt(tx, ty) == AsRequested(r, pixels, tx, ty)
  {
    hide TitleGradient;
  }

  // ---------------------------------------------------------------- runs

  datatype Call = CallSpawn(request: Request) | CallDestroy(id: int) | CallSetSize(w: int, h: int)
                | CallPaint(id: int, pixels: seq<Color>)

  function Do(s: Screen, c: Call): (Screen, int) {
    match c
    case CallSpawn(request) => Spawn(s, request)
    case CallDestroy(id) => Destroy(s, id)
    case CallSetSize(w, h) => SetSize(s, w, h)
    case CallPaint(id, pixels) => Paint(s, id, pixels)
  }

  function Run(calls: seq<Call>): Screen {
    if calls == [] then Screen(1024, 768, None) else Do(Run(calls[..|calls| - 1]), calls[|calls| - 1]).0
  }

  function ResultOf(calls: seq<Call>): int
    requires calls != []
  {
    Do(Run(calls[..|calls| - 1]), calls[|calls| - 1]).1
  }

  /** The ids clients hold, going by nothing but the results of their calls. */
  function Held(calls: seq<Call>): set<int> {
    if calls == [] then {} else
    var last, before := calls[|calls| - 1], Held(calls[..|calls| - 1]);
    if last.CallSpawn? && ResultOf(calls) != FAILED then before + {ResultOf(calls)}
    else if last.CallDestroy? && ResultOf(calls) == 0 then before - {last.id}
    else before
  }

  /** Successful spawns less successful destroys. */
  function Balance(calls: seq<Call>): int {
    if calls == [] then 0 else
    var last, before := calls[|calls| - 1], Balance(calls[..|calls| - 1]);
    if last.CallSpawn? && ResultOf(calls) != FAILED then before + 1
    else if last.CallDestroy? && ResultOf(calls) == 0 then before - 1
    else before
  }

  /**
   * After any calls: the ids held are those of the layers there are, all in 0..31; their number is the successful
   * spawns less the successful destroys; and an id just handed out was not held before, so no two layers share one.
   */
  lemma {:induction false} IdsOverRuns(calls: seq<Call>)
    ensures Sound(Run(calls))
    ensures Held(calls) == Live(Run(calls)) && |Held(calls)| == Balance(calls) <= MAX_SURFACES
    ensures forall id :: id in Held(calls) ==> 0 <= id < MAX_SURFACES
    ensures calls != [] && calls[|calls| - 1].CallSpawn? && ResultOf(calls) != FAILED ==>
              ResultOf(calls) !in Held(calls[..|calls| - 1])
  {
    hide Do, Live, Sound;
    if calls != [] {
      var last, rest := calls[|calls| - 1], calls[..|calls| - 1];
      IdsOverRuns(rest);
      OneCall(Run(rest), last);
    } else {
      NoCalls();
    }
    UpTo(Held(calls), MAX_SURFACES);
  }

  lemma NoCalls()
    ensures var s := Screen(1024, 768, None); Sound(s) && Live(s) == {}
  {}

  /** What a call makes of the ids there are. */
  lemma OneCall(s: Screen, c: Call)
    requires Sound(s)
    ensures var (n, r) := Do(s, c);
            && Sound(n)
            && (c.CallSpawn? && r != FAILED ==> 0 <= r < MAX_SURFACES && r !in Live(s) && Live(n) == Live(s) + {r})
            && (c.CallDestroy? && r == 0 ==> c.id in Live(s) && Live(n) == Live(s) - {c.id})
            && (!(c.CallSpawn? && r != FAILED) && !(c.CallDestroy? && r == 0) ==> Live(n) == Live(s))
  {
    hide Spawn, Destroy, Paint;
    match c
    case CallSpawn(request) => SpawnTakesLowest(s, request);
    case CallDestroy(id) => DestroyRemoves(s, id);
    case CallSetSize(w, h) =>
    case CallPaint(id, pixels) => PaintKeeps(s, id, pixels);
  }

  lemma {:induction false} UpTo(ids: set<int>, n: nat)
    requires forall id :: id in ids ==> 0 <= id < n
    ensures |ids| <= n
  {
    if n == 0 {
      assert forall id | id in ids :: 0 <= id < n;
      assert ids == {};
    } else {
      UpTo(ids - {n - 1}, n - 1);
    }
  }

  // ---------------------------------------------------------------- the calls, in place

  /** The display's globals: the context, made with the first layer, and the size it is to get. */
  class Display {
    var ctx: Ctx?
    var width: int
    var height: int

    constructor ()
      ensures Valid() && Shot() == Screen(1024, 768, None)
    {
      ctx, width, height := null, 1024, 768;
    }

    ghost function Table(): set<object>
      reads this
    {
      if ctx == null then {} else {ctx.layers}
    }

    ghost function Cells(): set<object>
      reads this
    {
      if ctx == null then {} else {ctx.compBuf}
    }

    ghost predicate Valid()
      reads this, Table()
    {
      && width > 0 && height > 0
      && (ctx != null ==> ctx.Valid() && ctx.width == width && ctx.height == height && TableSound(ctx.layers[..]))
    }

    ghost function Shot(): Screen
      reads this, Table()
    {
      Screen(width, height, if ctx == null then None else Some(ctx.layers[..]))
    }

    method SpawnLayer(r: Request) returns (id: int)
      requires Valid()
      modifies this`ctx, Table()
      ensures Valid() && (Shot(), id) == Spawn(old(Shot()), r) && -1 <= id < 32
      ensures ctx != old(ctx) ==> old(ctx) == null && fresh(ctx) && fresh(Table()) && fresh(Cells())
    {
      hide Spawned;
      if !r.outs || r.w <= 0 || r.h <= 0 {
        return FAILED;
      }
      if ctx == null {
        if !r.ready {
          return FAILED;
        }
        ctx := new Ctx(width, height);
        assert ctx.layers[..] == Blanks();
      }
      ghost var layers := ctx.layers[..];
      var i := 0;
      while i < MAX_SURFACES
        invariant i <= MAX_SURFACES && FirstFree(layers, 0) == FirstFree(layers, i)
        invariant ctx.layers[..] == layers
      {
        if !ctx.layers[i].active {
          if r.memory.None? {
            return FAILED;
          }
          ctx.layers[i] := Spawned(r, i, r.memory.value);
          assert ctx.layers[..] == layers[i := Spawned(r, i, r.memory.value)];
          return i;
        }
        i := i + 1;
      }
      return FAILED;
    }

    method DestroyLayer(id: int) returns (r: int)
      requires Valid()
      modifies Table()
      ensures Valid() && (Shot(), r) == Destroy(old(Shot()), id) && (r == 0 || r == -1)
    {
      if ctx == null || id < 0 || id >= MAX_SURFACES || !ctx.layers[id].active {
        return FAILED;
      }
      ctx.layers[id] := Blank(id);
      return 0;
    }

    /** What a client does by itself: it writes all pixels of its layer. */
    method PaintLayer(id: int, pixels: seq<Color>) returns (r: int)
      requires Valid()
      modifies Table()
      ensures Valid() && (Shot(), r) == Paint(old(Shot()), id, pixels)
    {
      PaintKeeps(Shot(), id, pixels);
      if ctx == null || id < 0 || id >= MAX_SURFACES || !ctx.layers[id].active ||
         |pixels| != |ctx.layers[id].pixels.value|
      {
        return FAILED;
      }
      ctx.layers[id] := ctx.layers[id].(pixels := Some(pixels));
      return 0;
    }

    method SetDisplaySize(w: int, h: int) returns (r: int)
      requires Valid()
      modifies this`width, this`height
      ensures Valid() && (Shot(), r) == SetSize(old(Shot()), w, h) && (r == 0 || r == -1)
    {
      if w <= 0 || h <= 0 || ctx != null {
        return FAILED;
      }
      width, height := w, h;
      return 0;
    }

    method GetLayerCount() returns (count: nat)
      requires Valid()
      ensures count == |Live(Shot())|
    {
      count := 0;
      if ctx == null {
        return;
      }
      var i := 0;
      while i < MAX_SURFACES
        invariant i <= MAX_SURFACES && count == |ActiveIds(ctx.layers[..i])|
      {
        assert ActiveIds(ctx.layers[..i + 1]) == ActiveIds(ctx.layers[..i]) + if ctx.layers[i].active then {i} else {};
        if ctx.layers[i].active {
          count := count + 1;
        }
        i := i + 1;
      }
      assert ctx.layers[..MAX_SURFACES] == ctx.layers[..];
    }

    /** The picture: a cell for every position of the display, showing the topmost layer there. */
    method GetCompositeBuffer() returns (buffer: array?<Color>, w: int, h: int)
      requires Valid()
      modifies Cells()
      ensures Valid() && Shot() == old(Shot())
      ensures buffer == null <==> Shot().layers.None?
      ensures buffer != null ==>
                && w == width && h == height && buffer.Length == w * h
                && forall tx: nat, ty: nat :: tx < w && ty < h ==>
                     At(w, tx, ty) < buffer.Length && buffer[At(w, tx, ty)] == Composite(Shot().layers.value, tx, ty)
    {
      hide Composite, At;
      if ctx == null {
        return null, 0, 0;
      }
      ctx.Compose();
      buffer, w, h := ctx.compBuf, ctx.width, ctx.height;
      forall tx: nat, ty: nat | tx < w && ty < h
        ensures At(w, tx, ty) < buffer.Length && buffer[At(w, tx, ty)] == Composite(Shot().layers.value, tx, ty)
      {
        AtIsInside(w, h, tx, ty);
        assert ctx.Shown(tx, ty) == Composite(ctx.layers[..], tx, ty);
      }
    }
  }

  // ---------------------------------------------------------------- the calls together

  /** Word `tx` of row `ty` in a buffer of `w` words a row. */
  ghost predicate CellIs(buffer: seq<Color>, w: nat, tx: nat, ty: nat, color: Color) {
    ty * w + tx < |buffer| && buffer[ty * w + tx] == color
  }

  /** A layer is spawned, its client draws, and the picture is asked for: the buffer shows what `SpawnShows` says. */
  method ShowNew(d: Display, r: Request, pixels: seq<Color>)
    returns (id: int, buffer: array?<Color>, w: int, h: int)
    requires d.Valid() && Spawn(d.Shot(), r).1 != FAILED && |pixels| == r.w * r.h
    modifies d`ctx, d.Table(), d.Cells()
    ensures d.Valid() && Live(d.Shot()) == old(Live(d.Shot())) + {id} && id !in old(Live(d.Shot()))
    ensures w == old(d.width) > 0 && h == old(d.height) > 0 && buffer != null && buffer.Length == w * h
    ensures forall tx: nat, ty: nat :: tx < w && ty < h ==>
              CellIs(buffer[..], w, tx, ty,
                     if Requested(r, tx, ty) && !Covered(old(d.Shot()), r.zOrder, id, tx, ty)
                     then AsRequested(r, pixels, tx, ty) else Picture(old(d.Shot()), tx, ty))
  {
    hide Spawn, Paint, Composite, AsRequested, Covered;
    ghost var s := d.Shot();
    ShotIsSound(d);
    SpawnTakesLowest(s, r);
    id := d.SpawnLayer(r);
    var painted := d.PaintLayer(id, pixels);
    ghost var after := d.Shot();
    SpawnShows(s, r, pixels, 0, 0);
    buffer, w, h := d.GetCompositeBuffer();
    forall tx: nat, ty: nat | tx < w && ty < h
      ensures CellIs(buffer[..], w, tx, ty, Picture(after, tx, ty)) && Picture(after, tx, ty) ==
        if Requested(r, tx, ty) && !Covered(s, r.zOrder, id, tx, ty)
        then AsRequested(r, pixels, tx, ty) else Picture(s, tx, ty)
    {
      SpawnShows(s, r, pixels, tx, ty);
    }
  }

  lemma ShotIsSound(d: Display)
    requires d.Valid()
    ensures Sound(d.Shot())
  {}

  /** The first layer of a display of the size asked for. */
  method ShowFirst(w: int, h: int, r: Request, pixels: seq<Color>)
    returns (buffer: array?<Color>, bw: int, bh: int)
    requires w > 0 && h > 0 && r.outs && r.ready && r.memory.Some? && r.w > 0 && r.h > 0 && |pixels| == r.w * r.h
    ensures bw == w && bh == h && buffer != null && buffer.Length == w * h
    ensures forall tx: nat, ty: nat :: tx < w && ty < h ==>
              CellIs(buffer[..], w, tx, ty, if Requested(r, tx, ty) then AsRequested(r, pixels, tx, ty) else 0)
  {
    hide AsRequested, CellIs;
    var d := new Display();
    var resized := d.SetDisplaySize(w, h);
    SpawnFailsIff(d.Shot(), r);
    var id;
    id, buffer, bw, bh := ShowNew(d, r, pixels);
  }
}
