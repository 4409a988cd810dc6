/** The Layer III side-info parser, against the fixed bit layout of ISO/IEC 11172-3 section 2.4.1.7. */
module SideInfo {
  import opened Bits
  import opened Header

  const SHORT_BLOCK_TYPE: nat := 2

  /** Which scale factor band table a granule uses (g_scf_long, g_scf_short or g_scf_mixed). */
  datatype BandTable = Long | Short | Mixed

  datatype Triple = Triple(v0: nat, v1: nat, v2: nat)

  /** L3_gr_info_t. */
  datatype GrInfo = GrInfo(
    bands: BandTable,
    part23Length: nat, bigValues: nat, globalGain: nat, scalefacCompress: nat,
    blockType: nat, mixedBlock: bool, nLongSfb: nat, nShortSfb: nat,
    tableSelect: Triple,
    regionCount: Triple,
    subblockGain: Triple,
    preflag: bool, scalefacScale: nat, count1Table: nat, scfsi: nat)

  /** An unused slot. */
  const NO_GRANULE: GrInfo :=
    GrInfo(Long, 0, 0, 0, 0, 0, false, 0, 0, Triple(0, 0, 0), Triple(0, 0, 0), Triple(0, 0, 0), false, 0, 0, 0)

  // ---------------------------------------------------------------- the layout of the standard

  /** A side info block: the bits it lies in, its position and its frame header. */
  datatype Block = Block(buf: seq<Byte>, limit: int, start: nat, h: Header) {

    ghost predicate Valid() { limit <= 8 * |buf| }

    function Granules(): (n: nat)
      ensures 1 <= n <= 4
    {
      (if h.TestMpeg1() then 2 else 1) * h.Channels()
    }

    /** main_data_begin, private bits and scfsi. */
    function HeadBits(): nat { if h.TestMpeg1() then 16 + Granules() else 8 + Granules() }

    function GranuleStart(g: nat): nat { start + HeadBits() + (if h.TestMpeg1() then 59 * g else 63 * g) }

    function End(): nat { GranuleStart(Granules()) }

    ghost function F(pos: nat, n: nat): nat
      requires Valid()
    {
      Field(buf, limit, pos, n)
    }

    ghost function MainDataBegin(): nat
      requires Valid()
    {
      if h.TestMpeg1() then F(start, 9) else Shr(F(start, 8 + Granules()), Granules())
    }

    ghost function Part23(g: nat): nat
      requires Valid()
    {
      F(GranuleStart(g), 12)
    }

    ghost function BigValues(g: nat): nat
      requires Valid()
    {
      F(GranuleStart(g) + 12, 9)
    }

    /** The position of the window switching flag. */
    function WindowStart(g: nat): nat { GranuleStart(g) + (if h.TestMpeg1() then 33 else 38) }

    ghost predicate WindowSwitching(g: nat)
      requires Valid()
    {
      F(WindowStart(g), 1) != 0
    }

    ghost function BlockType(g: nat): nat
      requires Valid()
    {
      if WindowSwitching(g) then F(WindowStart(g) + 1, 2) else 0
    }

    ghost predicate IsShort(g: nat)
      requires Valid()
    {
      BlockType(g) == SHORT_BLOCK_TYPE
    }

    ghost predicate GranuleOk(g: nat)
      requires Valid()
    {
      BigValues(g) <= 288 && (WindowSwitching(g) ==> BlockType(g) != 0)
    }

    ghost function PartSum(n: nat): nat
      requires Valid()
    {
      if n == 0 then 0 else PartSum(n - 1) + Part23(n - 1)
    }

    /** A block that parses: legal granules whose main data fits the frame and its announced back reference. */
    ghost predicate Ok()
      requires Valid()
    {
      (forall g :: 0 <= g < Granules() ==> GranuleOk(g)) &&
      PartSum(Granules()) + End() <= limit + 8 * MainDataBegin()
    }

    /** The scfsi group of channel `c` of an MPEG-1 frame as a slice of the field that also holds the private bits. */
    ghost function ScfsiGroup(c: nat): nat
      requires Valid() && c < h.Channels()
    {
      var field := F(start + 9, 7 + Granules());
      if c + 1 == h.Channels() then field % 16 else (field / 16) % 16
    }
  }

  /** Three five-bit table numbers. */
  function Tables(tables: nat): Triple {
    Triple(tables / 1024, (tables / 32) % 32, tables % 32)
  }

  /** The fields that follow the window switching flag, at the positions the standard gives them. */
  ghost predicate MatchesWindow(b: Block, g: nat, gr: GrInfo)
    requires b.Valid()
  {
    var w := b.WindowStart(g);
    gr.blockType == b.BlockType(g) &&
    (b.WindowSwitching(g) ==>
       gr.mixedBlock == (b.F(w + 3, 1) != 0) && gr.regionCount.v1 == 255 &&
       gr.regionCount.v0 == (if b.IsShort(g) && !gr.mixedBlock then 8 else 7) &&
       gr.tableSelect == Triple(b.F(w + 4, 10) / 32, b.F(w + 4, 10) % 32, 0) &&
       gr.subblockGain == Triple(b.F(w + 14, 3), b.F(w + 17, 3), b.F(w + 20, 3))) &&
    (!b.WindowSwitching(g) ==>
       !gr.mixedBlock && gr.tableSelect == Tables(b.F(w + 1, 15)) &&
       gr.regionCount == Triple(b.F(w + 16, 4), b.F(w + 20, 3), 255)) &&
    gr.bands == (if !b.IsShort(g) then Long else if gr.mixedBlock then Mixed else Short) &&
    gr.nLongSfb == (if gr.bands == Long then 22 else if gr.bands == Short then 0
                    else if b.h.TestMpeg1() then 8 else 6) &&
    gr.nShortSfb == (if gr.bands == Long then 0 else if gr.bands == Short then 39 else 30)
  }

  /** All fields of granule `g` at the positions the standard gives them. */
  ghost predicate Matches(b: Block, g: nat, gr: GrInfo)
    requires b.Valid()
  {
    var s, t := b.GranuleStart(g), b.WindowStart(g) + 23;
    var u := if b.h.TestMpeg1() then t + 1 else t;
    gr.part23Length == b.Part23(g) && gr.bigValues == b.BigValues(g) && gr.globalGain == b.F(s + 21, 8) &&
    gr.scalefacCompress == b.F(s + 29, if b.h.TestMpeg1() then 4 else 9) &&
    MatchesWindow(b, g, gr) &&
    gr.preflag == (if b.h.TestMpeg1() then b.F(t, 1) != 0 else gr.scalefacCompress >= 500) &&
    gr.scalefacScale == b.F(u, 1) && gr.count1Table == b.F(u + 1, 1)
  }

  /** 17 or 32 bytes for MPEG-1, 9 or 17 for MPEG-2 and 2.5 (mono or stereo). */
  lemma SideInfoBytes(b: Block)
    ensures b.End() == b.start + 8 * (if b.h.TestMpeg1() then if b.h.IsMono() then 17 else 32
                                      else if b.h.IsMono() then 9 else 17)
  {}

  // ---------------------------------------------------------------- nibbles of the scfsi word

  function Nibble(x: nat, k: nat): (n: nat)
    ensures n < 16
  {
    if k == 0 then x % 16 else Nibble(x / 16, k - 1)
  }

  /** `scfsi <<= 4` on a 32-bit word. */
  function Shl4(x: nat): nat { (x * 16) % 0x1_0000_0000 }

  /** `scfsi &= 0x0F0F`. */
  function And0F0F(x: nat): nat { Nibble(x, 2) * 256 + Nibble(x, 0) }

  lemma Shl4Moves(x: nat, k: nat)
    requires k < 3
    ensures Nibble(Shl4(x), k + 1) == Nibble(x, k) && Nibble(Shl4(x), 0) == 0
  {
    var q, y := x / 0x1000_0000, x % 0x1000_0000;
    assert Shl4(x) == 16 * y;
    DropTop(x, q, y, k);
  }

  lemma NibblesOf(x: nat)
    ensures Nibble(x, 0) == x % 16 && Nibble(x, 1) == (x / 16) % 16 && Nibble(x, 2) == (x / 16 / 16) % 16
  {
    assert Nibble(x, 1) == Nibble(x / 16, 0);
    assert Nibble(x, 2) == Nibble(x / 16, 1) == Nibble(x / 16 / 16, 0);
  }

  lemma NibbleAbove(y: nat, k: nat)
    ensures Nibble(16 * y, k + 1) == Nibble(y, k) && Nibble(16 * y, 0) == 0
  {}

  lemma DropTop(x: nat, q: nat, y: nat, k: nat)
    requires x == q * 0x1000_0000 + y && k < 3
    ensures Nibble(16 * y, k + 1) == Nibble(x, k) && Nibble(16 * y, 0) == 0
  {
    hide Nibble;
    NibbleAbove(y, k);
    NibblesOf(x);
    NibblesOf(y);
    var a := y / 16;
    LastNibble(q * 0x100_0000 + a, y % 16);
    LastNibble(q * 0x10_0000 + a / 16, a % 16);
    LastNibble(q * 0x1_0000 + a / 16 / 16, a / 16 % 16);
  }

  lemma LastNibble(v: nat, r: nat)
    requires r < 16
    ensures (16 * v + r) / 16 == v && (16 * v + r) % 16 == r
  {}

  lemma And0F0FKeeps(x: nat)
    ensures Nibble(And0F0F(x), 0) == Nibble(x, 0) && Nibble(And0F0F(x), 2) == Nibble(x, 2)
    ensures Nibble(And0F0F(x), 1) == 0 && Nibble(And0F0F(x), 3) == 0
  {
    var y, n0, n2 := And0F0F(x), Nibble(x, 0), Nibble(x, 2);
    assert y / 16 == n2 * 16 && y / 256 == n2 && y % 16 == n0;
    assert Nibble(y, 1) == Nibble(y / 16, 0);
    assert Nibble(y, 2) == Nibble(y / 16, 1) == Nibble(n2, 0);
    assert Nibble(y, 3) == Nibble(y / 16, 2) == Nibble(n2, 1) == Nibble(n2 / 16, 0);
  }

  // ---------------------------------------------------------------- the parser

  /** The branch with the window switching flag set. `gr` is what the slot held before. */
  method ReadSwitched(bs: BitReader, ghost b: Block, ghost g: nat, h: Header, gr: GrInfo, scfsi: nat)
    returns (ok: bool, gr': GrInfo, scfsi': nat)
    requires bs.Valid() && b.Valid() && b.buf == bs.buf && b.limit == bs.limit && b.h == h
    requires bs.pos == b.WindowStart(g) + 1 && b.WindowSwitching(g)
    requires gr.bands == Long && gr.nLongSfb == 22 && gr.nShortSfb == 0
    modifies bs
    ensures bs.Valid()
    ensures ok <==> b.BlockType(g) != 0
    ensures ok ==> bs.pos == b.WindowStart(g) + 23 && MatchesWindow(b, g, gr')
    ensures ok ==> scfsi' == if b.IsShort(g) then And0F0F(scfsi) else scfsi
    ensures gr'.part23Length == gr.part23Length && gr'.bigValues == gr.bigValues
    ensures gr'.globalGain == gr.globalGain && gr'.scalefacCompress == gr.scalefacCompress
  {
    hide Field, Nibble, And0F0F;
    ok, gr', scfsi' := true, gr, scfsi;
    var blockType := bs.GetBits(2);
    if blockType == 0 {
      ok := false;
      return;
    }
    var mixed := bs.GetBits(1);
    gr' := gr'.(blockType := blockType, mixedBlock := mixed != 0, regionCount := gr.regionCount.(v0 := 7, v1 := 255));
    if blockType == SHORT_BLOCK_TYPE {
      scfsi' := And0F0F(scfsi);
      if mixed == 0 {
        gr' := gr'.(regionCount := gr'.regionCount.(v0 := 8), bands := Short, nLongSfb := 0, nShortSfb := 39);
      } else {
        gr' := gr'.(bands := Mixed, nLongSfb := if h.TestMpeg1() then 8 else 6, nShortSfb := 30);
      }
    }
    var tables := bs.GetBits(10);
    tables := tables * 32;
    var gain0 := bs.GetBits(3);
    var gain1 := bs.GetBits(3);
    var gain2 := bs.GetBits(3);
    gr' := gr'.(subblockGain := Triple(gain0, gain1, gain2), tableSelect := Tables(tables));
  }

  /** The fields from the window switching flag on. */
  method ReadWindow(bs: BitReader, ghost b: Block, ghost g: nat, h: Header, gr: GrInfo, scfsi: nat)
    returns (ok: bool, gr': GrInfo, scfsi': nat)
    requires bs.Valid() && b.Valid() && b.buf == bs.buf && b.limit == bs.limit && b.h == h
    requires bs.pos == b.WindowStart(g)
    requires gr.bands == Long && gr.nLongSfb == 22 && gr.nShortSfb == 0
    modifies bs
    ensures bs.Valid()
    ensures ok <==> (b.WindowSwitching(g) ==> b.BlockType(g) != 0)
    ensures ok ==> bs.pos == b.WindowStart(g) + 23 && MatchesWindow(b, g, gr')
    ensures ok ==> scfsi' == if b.IsShort(g) then And0F0F(scfsi) else scfsi
    ensures gr'.part23Length == gr.part23Length && gr'.bigValues == gr.bigValues
    ensures gr'.globalGain == gr.globalGain && gr'.scalefacCompress == gr.scalefacCompress
  {
    hide Field, Nibble, And0F0F;
    ok, gr', scfsi' := true, gr, scfsi;
    var switching := bs.GetBits(1);
    if switching != 0 {
      ok, gr', scfsi' := ReadSwitched(bs, b, g, h, gr, scfsi);
    } else {
      var tables := bs.GetBits(15);
      var count0 := bs.GetBits(4);
      var count1 := bs.GetBits(3);
      gr' := gr'.(blockType := 0, mixedBlock := false, tableSelect := Tables(tables),
                  regionCount := Triple(count0, count1, 255));
    }
  }

  /** One turn of the granule loop, up to the scfsi assignment. */
  method ReadGranule(bs: BitReader, ghost b: Block, ghost g: nat, h: Header, gr: GrInfo, scfsi: nat)
    returns (ok: bool, gr': GrInfo, scfsi': nat)
    requires bs.Valid() && b.Valid() && b.buf == bs.buf && b.limit == bs.limit && b.h == h
    requires bs.pos == b.GranuleStart(g)
    modifies bs
    ensures bs.Valid()
    ensures ok <==> b.GranuleOk(g)
    ensures ok ==> bs.pos == b.GranuleStart(g + 1) && Matches(b, g, gr')
    ensures ok ==> scfsi' == if b.IsShort(g) then And0F0F(scfsi) else scfsi
  {
    hide Field, And0F0F;
    ok, gr', scfsi' := false, gr, scfsi;
    var part := bs.GetBits(12);
    var big := bs.GetBits(9);
    gr' := gr'.(part23Length := part, bigValues := big);
    if big > 288 {
      return;
    }
    var gain := bs.GetBits(8);
    var compress := bs.GetBits(if h.TestMpeg1() then 4 else 9);
    gr' := gr'.(globalGain := gain, scalefacCompress := compress, bands := Long, nLongSfb := 22, nShortSfb := 0);
    ok, gr', scfsi' := ReadWindow(bs, b, g, h, gr', scfsi);
    if !ok {
      return;
    }
    var preflag := if compress >= 500 then 1 else 0;
    if h.TestMpeg1() {
      preflag := bs.GetBits(1);
    }
    var scale := bs.GetBits(1);
    var count1Table := bs.GetBits(1);
    gr' := gr'.(preflag := preflag != 0, scalefacScale := scale, count1Table := count1Table);
  }

  /** The nibble of the scfsi word that holds the group of channel `c` before granule `g` is read. */
  function NibbleOf(h: Header, c: nat, g: nat): int {
    if h.IsMono() then 2 * g else 1 - c + g
  }

  /** What is left of the group of channel `c` before granule `g`: nothing after a short block of the channel. */
  ghost function Pending(b: Block, c: nat, g: nat): nat
    requires b.Valid() && c < b.h.Channels()
  {
    if g > c && b.IsShort(c) then 0 else b.ScfsiGroup(c)
  }

  /** The scfsi word before granule `g` holds each group that is not yet handed out. */
  ghost predicate ScfsiHolds(b: Block, g: nat, scfsi: nat)
    requires b.Valid()
  {
    forall c: nat :: c < b.h.Channels() && g <= b.h.Channels() + c ==>
      Nibble(scfsi, NibbleOf(b.h, c, g)) == Pending(b, c, g)
  }

  lemma ScfsiAtStart(b: Block)
    requires b.Valid() && b.h.TestMpeg1()
    ensures ScfsiHolds(b, 0, b.F(b.start + 9, 7 + b.Granules()))
  {
    var field := b.F(b.start + 9, 7 + b.Granules());
    assert Nibble(field, 1) == Nibble(field / 16, 0);
  }

  /** The word from which granule `g` is served: `short` tells whether the granule is a short block. */
  function ScfsiServing(h: Header, scfsi: nat, short: bool): nat {
    var before := if h.IsMono() then Shl4(scfsi) else scfsi;
    if short then And0F0F(before) else before
  }

  lemma ScfsiServed(b: Block, g: nat, c: nat, scfsi: nat)
    requires b.Valid() && b.h.TestMpeg1() && ScfsiHolds(b, g, scfsi)
    requires c < b.h.Channels() && g <= b.h.Channels() + c
    ensures Nibble(ScfsiServing(b.h, scfsi, b.IsShort(g)), if b.h.IsMono() then 2 * g + 1 else 1 - c + g)
         == if (g == c || g == b.h.Channels() + c) && b.IsShort(g) then 0 else Pending(b, c, g)
  {
    hide Nibble, Shl4, And0F0F;
    assert Nibble(scfsi, NibbleOf(b.h, c, g)) == Pending(b, c, g);
    if b.h.IsMono() {
      Shl4Moves(scfsi, 2 * g);
    }
    And0F0FKeeps(if b.h.IsMono() then Shl4(scfsi) else scfsi);
  }

  lemma ScfsiKept(b: Block, g: nat, scfsi: nat)
    requires b.Valid() && b.h.TestMpeg1() && ScfsiHolds(b, g, scfsi)
    ensures ScfsiHolds(b, g + 1, Shl4(ScfsiServing(b.h, scfsi, b.IsShort(g))))
  {
    hide Nibble, Shl4, And0F0F;
    var serving := ScfsiServing(b.h, scfsi, b.IsShort(g));
    var g' := g + 1;
    forall c: nat | c < b.h.Channels() && g' <= b.h.Channels() + c
      ensures Nibble(Shl4(serving), NibbleOf(b.h, c, g')) == Pending(b, c, g')
    {
      ScfsiServed(b, g, c, scfsi);
      Shl4Moves(serving, if b.h.IsMono() then 2 * g + 1 else 1 - c + g);
    }
  }

  /** The scfsi of the second granule of channel `c`: 0 if either granule is a short block, else the group sent. */
  ghost function SecondScfsi(b: Block, c: nat): nat
    requires b.Valid() && c < b.h.Channels()
  {
    if b.IsShort(c) || b.IsShort(b.h.Channels() + c) then 0 else b.ScfsiGroup(c)
  }

  /** The private bits that stand above the scfsi groups: one of five in mono, all three in stereo. */
  ghost function PrivateBits(b: Block): nat
    requires b.Valid()
  {
    Nibble(b.F(b.start + 9, 7 + b.Granules()), 2)
  }

  /** The scfsi of the first granule of channel `c`, where the standard has none: what the shifted word holds there. */
  ghost function FirstScfsi(b: Block, c: nat): nat
    requires b.Valid() && c < b.h.Channels()
  {
    if b.IsShort(c) || (!b.h.IsMono() && c == 0) then 0 else PrivateBits(b)
  }

  /** The scfsi word before granule `g` holds what the first granules are to get; without scfsi it is 0. */
  ghost predicate FirstHolds(b: Block, g: nat, scfsi: nat)
    requires b.Valid()
  {
    if b.h.TestMpeg1() then
      g < b.h.Channels() ==>
        Nibble(scfsi, if b.h.IsMono() then 2 else 2 + g) == PrivateBits(b) &&
        (!b.h.IsMono() && g == 0 ==> Nibble(scfsi, 3) == 0)
    else scfsi == 0
  }

  lemma FirstAtStart(b: Block)
    requires b.Valid() && b.h.TestMpeg1()
    ensures FirstHolds(b, 0, b.F(b.start + 9, 7 + b.Granules()))
  {
    hide Field;
    var field := b.F(b.start + 9, 7 + b.Granules());
    if !b.h.IsMono() {
      ShlByByte(1);
      assert Shl(1, 9) == 512 && Shl(1, 10) == 1024 && Shl(1, 11) == 2048;
      assert field < 2048;
      assert Nibble(field, 3) == Nibble(field / 16, 2) == Nibble(field / 16 / 16, 1) == Nibble(field / 16 / 16 / 16, 0);
    }
  }

  lemma FirstServed(b: Block, g: nat, scfsi: nat)
    requires b.Valid() && FirstHolds(b, g, scfsi)
    ensures b.h.TestMpeg1() && g < b.h.Channels() ==>
              Nibble(ScfsiServing(b.h, scfsi, b.IsShort(g)), 3) == FirstScfsi(b, g)
    ensures !b.h.TestMpeg1() ==> ScfsiServing(b.h, scfsi, b.IsShort(g)) == 0
    ensures FirstHolds(b, g + 1, Shl4(ScfsiServing(b.h, scfsi, b.IsShort(g))))
  {
    hide Field, Block.IsShort, PrivateBits;
    if b.h.TestMpeg1() {
      hide Nibble, Shl4, And0F0F;
      Shl4Moves(scfsi, 2);
      And0F0FKeeps(if b.h.IsMono() then Shl4(scfsi) else scfsi);
      Shl4Moves(ScfsiServing(b.h, scfsi, b.IsShort(g)), 2);
    } else {
      NibblesOf(0);
    }
  }

  /** The first `n` granules are stored as sent, each with the scfsi of its place. */
  ghost predicate Stored(b: Block, n: nat, gr: seq<GrInfo>)
    requires b.Valid()
  {
    n <= |gr| &&
    (forall g: nat :: g < n ==> b.GranuleOk(g) && Matches(b, g, gr[g])) &&
    (b.h.TestMpeg1() ==>
       forall c: nat :: c < b.h.Channels() ==>
         (c < n ==> gr[c].scfsi == FirstScfsi(b, c)) &&
         (b.h.Channels() + c < n ==> gr[b.h.Channels() + c].scfsi == SecondScfsi(b, c))) &&
    (!b.h.TestMpeg1() ==> forall g: nat :: g < n ==> gr[g].scfsi == 0)
  }

  lemma MatchesAnyScfsi(b: Block, g: nat, info: GrInfo, scfsi: nat)
    requires b.Valid() && Matches(b, g, info)
    ensures Matches(b, g, info.(scfsi := scfsi))
  {}

  lemma StoreOne(b: Block, g: nat, gr: seq<GrInfo>, info: GrInfo, scfsi: nat)
    requires b.Valid() && Stored(b, g, gr) && g < |gr| && b.GranuleOk(g) && Matches(b, g, info)
    requires FirstHolds(b, g, scfsi) && (b.h.TestMpeg1() ==> ScfsiHolds(b, g, scfsi))
    ensures Stored(b, g + 1,
      gr[g := info.(scfsi := Nibble(ScfsiServing(b.h, scfsi, b.IsShort(g)), 3))])
  {
    hide Nibble, Shl4, And0F0F, Field, ScfsiHolds, ScfsiServing, FirstHolds, FirstScfsi, SecondScfsi, Block.GranuleOk,
      Matches;
    FirstServed(b, g, scfsi);
    NibbleOfZero();
    MatchesAnyScfsi(b, g, info, Nibble(ScfsiServing(b.h, scfsi, b.IsShort(g)), 3));
    if b.h.TestMpeg1() && b.h.Channels() <= g {
      var c: nat := g - b.h.Channels();
      if c < b.h.Channels() {
        SecondServed(b, g, c, scfsi);
      }
    }
  }

  lemma SecondServed(b: Block, g: nat, c: nat, scfsi: nat)
    requires b.Valid() && b.h.TestMpeg1() && ScfsiHolds(b, g, scfsi) && c < b.h.Channels() && g == b.h.Channels() + c
    ensures Nibble(ScfsiServing(b.h, scfsi, b.IsShort(g)), 3) == SecondScfsi(b, c)
  {
    hide Nibble, ScfsiServing, Field;
    ScfsiServed(b, g, c, scfsi);
  }

  lemma NibbleOfZero()
    ensures Nibble(0, 3) == 0
  {
    assert Nibble(0, 3) == Nibble(0, 2) == Nibble(0, 1) == Nibble(0, 0);
  }

  lemma StoredNone(b: Block, gr: seq<GrInfo>)
    requires b.Valid()
    ensures Stored(b, 0, gr)
  {}

  lemma StoredOk(b: Block, n: nat, gr: seq<GrInfo>)
    requires b.Valid() && Stored(b, n, gr)
    ensures forall g: nat :: g < n ==> b.GranuleOk(g)
  {}

  /** L3_read_side_info: main_data_begin, or -1 for an illegal block. */
  method ReadSideInfo(bs: BitReader, gr: array<GrInfo>, h: Header) returns (r: int, ghost b: Block)
    requires bs.Valid() && gr.Length >= 4
    modifies bs, gr
    ensures bs.Valid() && b == Block(bs.buf, bs.limit, old(bs.pos), h)
    ensures r == if b.Ok() then b.MainDataBegin() else -1
    ensures r >= 0 ==> bs.pos == b.End()
    ensures r >= 0 ==> Stored(b, b.Granules(), gr[..])
  {
    hide Field, Nibble, And0F0F, Shl4, Shr, ScfsiHolds, FirstHolds, ScfsiServing, Matches, Block.GranuleOk, Stored;
    b := Block(bs.buf, bs.limit, bs.pos, h);
    var scfsi, mainDataBegin, partSum := 0, 0, 0;
    var grCount := h.Channels();
    if h.TestMpeg1() {
      grCount := grCount * 2;
      mainDataBegin := bs.GetBits(9);
      scfsi := bs.GetBits(7 + grCount);
      ScfsiAtStart(b);
      FirstAtStart(b);
    } else {
      FirstWithout(b);
      mainDataBegin := bs.GetBits(8 + grCount);
      mainDataBegin := Shr(mainDataBegin, grCount);
    }
    var g := 0;
    StoredNone(b, gr[..]);
    while g < grCount
      invariant 0 <= g <= grCount == b.Granules() && bs.Valid()
      invariant bs.pos == b.GranuleStart(g) && mainDataBegin == b.MainDataBegin() && partSum == b.PartSum(g)
      invariant Stored(b, g, gr[..])
      invariant FirstHolds(b, g, scfsi) && (h.TestMpeg1() ==> ScfsiHolds(b, g, scfsi))
    {
      ghost var before, slots := scfsi, gr[..];
      if h.IsMono() {
        scfsi := Shl4(scfsi);
      }
      var ok, info, masked := ReadGranule(bs, b, g, h, gr[g], scfsi);
      if !ok {
        r := -1;
        return;
      }
      StoreOne(b, g, slots, info, before);
      FirstServed(b, g, before);
      ServingIs(h, before, b.IsShort(g));
      if h.TestMpeg1() {
        ScfsiKept(b, g, before);
      }
      gr[g] := info.(scfsi := Nibble(masked, 3));
      assert gr[..] == slots[g := info.(scfsi := Nibble(masked, 3))];
      scfsi := Shl4(masked);
      partSum := partSum + PartOf(b, g, info);
      g := g + 1;
    }
    StoredOk(b, g, gr[..]);
    r := if partSum + bs.pos > bs.limit + mainDataBegin * 8 then -1 else mainDataBegin;
  }

  lemma FirstWithout(b: Block)
    requires b.Valid() && !b.h.TestMpeg1()
    ensures FirstHolds(b, 0, 0)
  {}

  lemma ServingIs(h: Header, scfsi: nat, short: bool)
    ensures ScfsiServing(h, scfsi, short) ==
      var before := if h.IsMono() then Shl4(scfsi) else scfsi; if short then And0F0F(before) else before
  {
    hide Shl4, And0F0F;
  }

  function PartOf(ghost b: Block, ghost g: nat, gr: GrInfo): (part: nat)
    requires b.Valid() && Matches(b, g, gr)
    ensures part == b.Part23(g)
  {
    gr.part23Length
  }

  /** Within the limit the handed-out group is the four bits the standard puts after the private bits. */
  lemma ScfsiGroupBits(b: Block, c: nat)
    requires b.Valid() && b.h.TestMpeg1() && c < b.h.Channels() && b.End() <= b.limit
    ensures b.ScfsiGroup(c) == BitsAt(b.buf, b.start + 9 + (if b.h.IsMono() then 5 else 3) + 4 * c, 4)
  {
    hide Shr, Low, BitsAt, Shl;
    var p, n := b.start + 9, 7 + b.Granules();
    var below := if c + 1 == b.h.Channels() then 0 else 4;
    BitsSplit(b.buf, p, n - below, below);
    BitsSplit(b.buf, p, n - 4 - below, 4);
    ShrByNibble(b.F(p, n));
    LowNibble(Shr(b.F(p, n), below));
  }

  lemma ShrByNibble(x: nat)
    ensures Shr(x, 0) == x && Shr(x, 4) == x / 16
  {
    assert Shr(x, 4) == Shr(x / 2, 3) == Shr(x / 2 / 2, 2) == Shr(x / 2 / 2 / 2, 1) == Shr(x / 2 / 2 / 2 / 2, 0);
  }

  lemma LowNibble(x: nat)
    ensures Low(x, 4) == x % 16
  {
    SplitAt(x, 4);
    var q := Shr(x, 4);
    assert Shl(q, 4) == 16 * q by {
      assert Shl(q, 1) == 2 * q;
      assert Shl(q, 2) == 4 * q;
      assert Shl(q, 3) == 8 * q;
    }
    assert Low(x, 4) < Shl(1, 4) == 16;
  }

  // ---------------------------------------------------------------- the fields, bit by bit

  /** Where the side info of granule `g` begins, by version and number of channels. */
  function GranuleAt(b: Block, g: nat): nat {
    b.start + (if b.h.TestMpeg1() then (if b.h.IsMono() then 18 else 20) + 59 * g
               else (if b.h.IsMono() then 9 else 10) + 63 * g)
  }

  /** The first bits of a stored granule, up to its window switching flag. */
  lemma GranuleBits(b: Block, n: nat, gr: seq<GrInfo>, g: nat)
    requires b.Valid() && Stored(b, n, gr) && g < n <= b.Granules() && b.End() <= b.limit
    ensures var (s, info) := (GranuleAt(b, g), gr[g]);
      s + 59 <= 8 * |b.buf| && info.part23Length == BitsAt(b.buf, s, 12) &&
      info.bigValues == BitsAt(b.buf, s + 12, 9) && info.globalGain == BitsAt(b.buf, s + 21, 8) &&
      info.scalefacCompress == BitsAt(b.buf, s + 29, if b.h.TestMpeg1() then 4 else 9)
  {
    hide BitsAt, Block.GranuleOk, MatchesWindow, FirstScfsi, SecondScfsi;
    GranuleInside(b, g);
    assert Matches(b, g, gr[g]);
  }

  lemma GranuleInside(b: Block, g: nat)
    requires g < b.Granules()
    ensures b.GranuleStart(g) == GranuleAt(b, g)
    ensures GranuleAt(b, g) + (if b.h.TestMpeg1() then 59 else 63) <= b.End()
  {}

  /**
   * The 22 bits behind the window switching flag at `w`: without switching three table numbers and two region counts;
   * with it block type, mixed flag, two table numbers and three gains, a short block taking eight bands for its first
   * region unless it is mixed.
   */
  lemma WindowBits(b: Block, n: nat, gr: seq<GrInfo>, g: nat)
    requires b.Valid() && Stored(b, n, gr) && g < n <= b.Granules() && b.End() <= b.limit
    ensures GranuleAt(b, g) + 59 + (if b.h.TestMpeg1() then 0 else 4) <= 8 * |b.buf|
    ensures var (buf, w, info) := (b.buf, GranuleAt(b, g) + (if b.h.TestMpeg1() then 33 else 38), gr[g]);
      if BitsAt(buf, w, 1) == 0 then
        info.blockType == 0 && !info.mixedBlock && info.bands == Long && info.nLongSfb == 22 && info.nShortSfb == 0 &&
        info.tableSelect == Triple(BitsAt(buf, w + 1, 5), BitsAt(buf, w + 6, 5), BitsAt(buf, w + 11, 5)) &&
        info.regionCount == Triple(BitsAt(buf, w + 16, 4), BitsAt(buf, w + 20, 3), 255)
      else
        info.blockType == BitsAt(buf, w + 1, 2) != 0 && (info.mixedBlock <==> BitsAt(buf, w + 3, 1) == 1) &&
        info.tableSelect == Triple(BitsAt(buf, w + 4, 5), BitsAt(buf, w + 9, 5), 0) &&
        info.subblockGain == Triple(BitsAt(buf, w + 14, 3), BitsAt(buf, w + 17, 3), BitsAt(buf, w + 20, 3)) &&
        SwitchedBands(b.h.TestMpeg1(), info)
  {
    hide BitsAt, FirstScfsi, SecondScfsi, Tables;
    GranuleInside(b, g);
    assert Matches(b, g, gr[g]) && b.GranuleOk(g);
    var w := b.WindowStart(g);
    TablesAre(b.buf, w + 1);
    PairIs(b.buf, w + 4);
    OneBit(b.buf, w + 3);
  }

  /** The last three fields, of which MPEG-2 and 2.5 have only two. */
  lemma FlagBits(b: Block, n: nat, gr: seq<GrInfo>, g: nat)
    requires b.Valid() && Stored(b, n, gr) && g < n <= b.Granules() && b.End() <= b.limit
    ensures GranuleAt(b, g) + 59 + (if b.h.TestMpeg1() then 0 else 4) <= 8 * |b.buf|
    ensures var (buf, t, info) := (b.buf, GranuleAt(b, g) + (if b.h.TestMpeg1() then 56 else 61), gr[g]);
      if b.h.TestMpeg1() then
        (info.preflag <==> BitsAt(buf, t, 1) == 1) && info.scalefacScale == BitsAt(buf, t + 1, 1) &&
        info.count1Table == BitsAt(buf, t + 2, 1)
      else
        (info.preflag <==> info.scalefacCompress >= 500) && info.scalefacScale == BitsAt(buf, t, 1) &&
        info.count1Table == BitsAt(buf, t + 1, 1)
  {
    hide BitsAt, FirstScfsi, SecondScfsi, MatchesWindow;
    GranuleInside(b, g);
    assert Matches(b, g, gr[g]);
    if b.h.TestMpeg1() { OneBit(b.buf, b.WindowStart(g) + 23); }
  }

  /** The bands of a granule with window switching: 13 short ones in each window, or a few long ones and 10 short. */
  predicate SwitchedBands(mpeg1: bool, info: GrInfo) {
    info.regionCount.v1 == 255 &&
    if info.blockType != 2 then
      info.bands == Long && info.nLongSfb == 22 && info.nShortSfb == 0 && info.regionCount.v0 == 7
    else if info.mixedBlock then
      info.bands == Mixed && info.nLongSfb == (if mpeg1 then 8 else 6) && info.nShortSfb == 30 &&
      info.regionCount.v0 == 7
    else info.bands == Short && info.nLongSfb == 0 && info.nShortSfb == 39 && info.regionCount.v0 == 8
  }

  /**
   * The scfsi of stored MPEG-1 granules: the second granule of channel `c` has the four bits sent for it, or 0 when
   * either granule of the channel is a short block. The first one has the private bits, but for the first of two
   * channels and for short blocks, which have 0.
   */
  lemma ScfsiBits(b: Block, gr: seq<GrInfo>, c: nat)
    requires b.Valid() && b.h.TestMpeg1() && Stored(b, b.Granules(), gr) && b.End() <= b.limit
    requires c < b.h.Channels()
    ensures b.start + 20 <= 8 * |b.buf| && b.Granules() == 2 * b.h.Channels()
    ensures var (p, mono) := (b.start + 9, b.h.IsMono());
      var (first, second) := (gr[c], gr[if mono then 1 else 2 + c]);
      second.scfsi == (if first.blockType == 2 || second.blockType == 2 then 0
                       else BitsAt(b.buf, p + (if mono then 5 else 3) + 4 * c, 4)) &&
      first.scfsi == if first.blockType == 2 || (!mono && c == 0) then 0 else BitsAt(b.buf, p, if mono then 1 else 3)
  {
    hide BitsAt, Block.ScfsiGroup, PrivateBits, Nibble, MatchesWindow;
    ScfsiGroupBits(b, c);
    PrivateBitsAre(b);
    TypeOf(b, gr, c);
    TypeOf(b, gr, b.h.Channels() + c);
    assert gr[c].scfsi == FirstScfsi(b, c);
    assert gr[b.h.Channels() + c].scfsi == SecondScfsi(b, c);
    assert b.h.Channels() == if b.h.IsMono() then 1 else 2;
    assert b.End() >= b.start + 20;
  }

  lemma TypeOf(b: Block, gr: seq<GrInfo>, g: nat)
    requires b.Valid() && Stored(b, b.Granules(), gr) && g < b.Granules()
    ensures b.IsShort(g) <==> gr[g].blockType == 2
  {
    hide Field;
    assert Matches(b, g, gr[g]);
  }

  lemma PrivateBitsAre(b: Block)
    requires b.Valid() && b.h.TestMpeg1() && b.End() <= b.limit
    ensures PrivateBits(b) == BitsAt(b.buf, b.start + 9, if b.h.IsMono() then 1 else 3)
  {
    hide BitsAt, Shr, Low;
    var (p, n) := (b.start + 9, 7 + b.Granules());
    BitsSplit(b.buf, p, n - 8, 8);
    var x := BitsAt(b.buf, p, n);
    NibblesOf(x);
    ShrByByte(x);
    EightSmall(b.buf, p, n - 8);
  }

  lemma ShrByByte(x: nat)
    ensures Shr(x, 8) == x / 16 / 16
  {
    assert Shr(x, 8) == Shr(x / 2, 7) == Shr(x / 2 / 2, 6) == Shr(x / 2 / 2 / 2, 5) == Shr(x / 2 / 2 / 2 / 2, 4);
    ShrByNibble(x / 16);
  }

  lemma EightSmall(buf: seq<Byte>, pos: nat, n: nat)
    requires n <= 3 && pos + n <= 8 * |buf|
    ensures BitsAt(buf, pos, n) < 16
  {
    hide BitsAt;
    ShlGrows(1, n, 3);
    assert Shl(1, 1) == 2 && Shl(1, 2) == 4 && Shl(1, 3) == 8;
  }

  lemma OneBit(buf: seq<Byte>, pos: nat)
    requires pos < 8 * |buf|
    ensures BitsAt(buf, pos, 1) <= 1
  {
    assert Shl(1, 1) == 2;
  }

  lemma PairIs(buf: seq<Byte>, pos: nat)
    requires pos + 10 <= 8 * |buf|
    ensures BitsAt(buf, pos, 10) / 32 == BitsAt(buf, pos, 5) && BitsAt(buf, pos, 10) % 32 == BitsAt(buf, pos + 5, 5)
  {
    hide BitsAt, Shr, Low;
    BitsSplit(buf, pos, 5, 5);
    FiveBits(BitsAt(buf, pos, 10));
  }

  lemma TablesAre(buf: seq<Byte>, pos: nat)
    requires pos + 15 <= 8 * |buf|
    ensures Tables(BitsAt(buf, pos, 15))
         == Triple(BitsAt(buf, pos, 5), BitsAt(buf, pos + 5, 5), BitsAt(buf, pos + 10, 5))
  {
    hide BitsAt, Shr, Low;
    BitsSplit(buf, pos, 10, 5);
    FiveBits(BitsAt(buf, pos, 15));
    PairIs(buf, pos);
  }

  lemma FiveBits(x: nat)
    ensures Shr(x, 5) == x / 32 && Low(x, 5) == x % 32
  {
    assert Shr(x, 5) == Shr(x / 2, 4) == Shr(x / 2 / 2, 3) == Shr(x / 2 / 2 / 2, 2) == Shr(x / 2 / 2 / 2 / 2, 1)
        == Shr(x / 2 / 2 / 2 / 2 / 2, 0);
    SplitAt(x, 5);
    var q := Shr(x, 5);
    assert Shl(q, 5) == 32 * q by {
      assert Shl(q, 1) == 2 * q;
      assert Shl(q, 2) == 4 * q;
      assert Shl(q, 3) == 8 * q;
      assert Shl(q, 4) == 16 * q;
    }
    assert Low(x, 5) < Shl(1, 5) == 32;
  }

  /** The lengths of all granules add up: one or two in MPEG-2 and 2.5, two or four in MPEG-1. */
  lemma PartsAddUp(b: Block)
    requires b.Valid() && b.End() <= b.limit
    ensures GranuleAt(b, 0) + 12 <= 8 * |b.buf| && b.Granules() in {1, 2, 4}
    ensures b.Granules() >= 2 ==> GranuleAt(b, 1) + 12 <= 8 * |b.buf|
    ensures b.Granules() == 4 ==> GranuleAt(b, 2) < GranuleAt(b, 3) && GranuleAt(b, 3) + 12 <= 8 * |b.buf|
    ensures var two := BitsAt(b.buf, GranuleAt(b, 0), 12) +
        (if b.Granules() >= 2 then BitsAt(b.buf, GranuleAt(b, 1), 12) else 0);
      b.PartSum(b.Granules()) == two +
        if b.Granules() == 4 then BitsAt(b.buf, GranuleAt(b, 2), 12) + BitsAt(b.buf, GranuleAt(b, 3), 12) else 0
  {
    hide BitsAt;
    GranuleInside(b, 0);
    assert b.PartSum(1) == b.Part23(0);
    if b.Granules() >= 2 {
      GranuleInside(b, 1);
      assert b.PartSum(2) == b.PartSum(1) + b.Part23(1);
    }
    if b.Granules() == 4 {
      GranuleInside(b, 2);
      GranuleInside(b, 3);
      assert b.PartSum(3) == b.PartSum(2) + b.Part23(2);
      assert b.PartSum(4) == b.PartSum(3) + b.Part23(3);
    }
  }

  /** A granule over its bits: at most 288 pairs, and no window switching without a block type. */
  ghost predicate Legal(b: Block, g: nat)
    requires b.Valid() && b.End() <= b.limit && g < b.Granules()
  {
    GranuleInside(b, g);
    var (s, w) := (GranuleAt(b, g), GranuleAt(b, g) + (if b.h.TestMpeg1() then 33 else 38));
    BitsAt(b.buf, s + 12, 9) <= 288 && (BitsAt(b.buf, w, 1) == 1 ==> BitsAt(b.buf, w + 1, 2) != 0)
  }

  /**
   * Side info inside its frame parses if and only if every granule is legal and the lengths of all fit into the bytes
   * that are referred back to and those behind the side info.
   */
  lemma OkIff(b: Block)
    requires b.Valid() && b.End() <= b.limit
    ensures b.Ok() <==>
      (forall g: nat :: g < b.Granules() ==> Legal(b, g)) &&
      b.PartSum(b.Granules()) <= 8 * b.MainDataBegin() + (b.limit - b.End())
  {
    hide BitsAt;
    forall g: nat | g < b.Granules() ensures b.GranuleOk(g) <==> Legal(b, g) {
      GranuleInside(b, g);
      OneBit(b.buf, b.WindowStart(g));
    }
  }

  lemma ZeroField(b: Block, pos: nat, n: nat)
    requires b.Valid() && forall p: nat :: b.start <= p < b.End() && p < 8 * |b.buf| ==> BitAt(b.buf, p) == 0
    requires b.start <= pos && pos + n <= b.End()
    ensures b.F(pos, n) == 0
  {
    hide BitAt, Block.Granules;
    if pos + n <= b.limit { ZeroBits(b.buf, pos, n); }
  }

  lemma {:induction false} ZeroParts(b: Block, n: nat)
    requires b.Valid() && forall p: nat :: b.start <= p < b.End() && p < 8 * |b.buf| ==> BitAt(b.buf, p) == 0
    requires n <= b.Granules()
    ensures b.PartSum(n) == 0 && forall g: nat :: g < n ==> b.GranuleOk(g)
  {
    hide BitAt, Field;
    if n > 0 {
      ZeroParts(b, n - 1);
      var g: nat := n - 1;
      ZeroField(b, b.GranuleStart(g), 12);
      ZeroField(b, b.GranuleStart(g) + 12, 9);
      ZeroField(b, b.WindowStart(g), 1);
    }
  }

  /** Side info of zeros, as encoders write it into the frame of a tag, is legal. */
  lemma SilenceIsLegal(b: Block)
    requires b.Valid() && forall p: nat :: b.start <= p < b.End() && p < 8 * |b.buf| ==> BitAt(b.buf, p) == 0
    requires b.End() <= b.limit
    ensures b.Ok()
  {
    hide BitAt, Field;
    ZeroParts(b, b.Granules());
  }

  /** Within the limit the back reference is nine bits of MPEG-1, and eight bits of MPEG-2 and 2.5. */
  lemma BackReference(b: Block)
    requires b.Valid() && b.End() <= b.limit
    ensures b.MainDataBegin() == BitsAt(b.buf, b.start, if b.h.TestMpeg1() then 9 else 8)
  {
    hide Shr, Low, BitsAt, Shl;
    if !b.h.TestMpeg1() { BitsSplit(b.buf, b.start, 8, b.Granules()); }
  }
}
