/** The frame-level control of mp3dec_decode_frame, over the bytes of a stream. */
module Decoder {
  import opened Bits
  import opened Header
  import opened SideInfo
  import opened Sync
  import opened Reservoir
  import opened Wrappers

  // ---------------------------------------------------------------- what a frame holds

  /** The bytes after the header; a free-format length may be shorter than a header. */
  function Body(b: seq<Byte>, f: FrameRef): seq<Byte>
    requires f.End() <= |b|
  {
    if f.size < HDR_SIZE then [] else b[f.offset + HDR_SIZE..f.End()]
  }

  /** The side info of a Layer III frame, after the optional checksum. */
  function SideBlock(b: seq<Byte>, f: FrameRef): (s: Block)
    requires f.End() <= |b| && f.offset + HDR_SIZE <= |b|
    ensures s.Valid()
  {
    var h := At(b, f.offset);
    Block(Body(b, f), 8 * (f.size - HDR_SIZE), if h.IsCrc() then 16 else 0, h)
  }

  /** The reservoir's view of a Layer III frame. */
  ghost function UnitOf(b: seq<Byte>, f: FrameRef): (u: Unit)
    requires f.End() <= |b| && f.offset + HDR_SIZE <= |b|
    ensures u.Usable? ==> u.frame.Valid() && |u.frame.data| + HDR_SIZE <= f.size
  {
    var s := SideBlock(b, f);
    if !s.Ok() || s.End() > s.limit then Corrupt else
    MainDataBeginRange(s);
    Usable(L3Frame(s.MainDataBegin(), s.PartSum(s.Granules()), s.buf[s.End() / 8..]))
  }

  lemma MainDataBeginRange(s: Block)
    requires s.Valid()
    ensures s.MainDataBegin() <= MAX_BITRESERVOIR_BYTES
  {
    ShlByByte(1);
    assert Shl(1, 9) == 512;
    if !s.h.TestMpeg1() {
      var v := s.F(s.start, 8 + s.Granules());
      SplitAt(v, s.Granules());
      assert Shl(1, 10) == 1024;
      assert Shr(v, 1) == Shr(v / 2, 0) == v / 2;
      assert Shr(v, 2) == Shr(v / 2, 1) == Shr(v / 2 / 2, 0) == v / 2 / 2;
    }
  }

  /**
   * Over the bytes of the stream: the side info of a frame begins behind its header, or two bytes later when the frame
   * is protected; its first bits are the back reference, and the main data of the frame begins where it ends.
   */
  lemma UnitBytes(b: seq<Byte>, f: FrameRef)
    requires f.End() <= |b| && f.offset + HDR_SIZE <= |b| && UnitOf(b, f).Usable?
    ensures var (start, mpeg1, mono) := (f.offset + (if b[f.offset + 1] % 2 == 0 then 6 else 4),
        (b[f.offset + 1] / 8) % 2 == 1, b[f.offset + 3] / 64 == 3);
      var data := start + (if mpeg1 then if mono then 17 else 32 else if mono then 9 else 17);
      data <= f.End() && UnitOf(b, f).frame.begin == BitsAt(b, 8 * start, if mpeg1 then 9 else 8) &&
      UnitOf(b, f).frame.data == b[data..f.End()]
  {
    hide Block.Ok, Block.PartSum, Block.MainDataBegin, BitsAt, Block.Granules, Block.End, UnitOf, SideBlock;
    UnitFromSideInfo(b, f);
    BlockBytes(b, f);
    BeginBits(b, f);
    DataBytes(b, f);
  }

  lemma BeginBits(b: seq<Byte>, f: FrameRef)
    requires f.End() <= |b| && f.offset + HDR_SIZE <= |b| && SideBlock(b, f).End() <= SideBlock(b, f).limit
    ensures var start, n := f.offset + (if b[f.offset + 1] % 2 == 0 then 6 else 4),
                            if (b[f.offset + 1] / 8) % 2 == 1 then 9 else 8;
      8 * start + n <= 8 * |b| && SideBlock(b, f).MainDataBegin() == BitsAt(b, 8 * start, n)
  {
    hide Block.MainDataBegin, BitsAt, Block.Granules, Block.End, SideBlock;
    var s := SideBlock(b, f);
    BlockBytes(b, f);
    BackReference(s);
    BitsOfPart(b, f.offset + HDR_SIZE, f.End(), s.start, if s.h.TestMpeg1() then 9 else 8);
  }

  lemma DataBytes(b: seq<Byte>, f: FrameRef)
    requires f.End() <= |b| && f.offset + HDR_SIZE <= |b| && SideBlock(b, f).End() <= SideBlock(b, f).limit
    ensures var s := SideBlock(b, f);
      f.offset + 4 + s.End() / 8 <= f.End() && s.limit / 8 <= |s.buf| &&
      s.buf[s.End() / 8..s.limit / 8] == b[f.offset + 4 + s.End() / 8..f.End()]
  {
    hide Block.End, SideBlock;
    BlockBytes(b, f);
    PartOfPart(b, f.offset + HDR_SIZE, f.End(), SideBlock(b, f).End() / 8);
  }

  lemma PartOfPart(b: seq<Byte>, from: nat, to: nat, k: nat)
    requires from + k <= to <= |b|
    ensures b[from..to][k..to - from] == b[from + k..to]
  {}

  lemma BlockBytes(b: seq<Byte>, f: FrameRef)
    requires f.End() <= |b| && f.offset + HDR_SIZE <= |b|
    ensures var s, mono := SideBlock(b, f), b[f.offset + 3] / 64 == 3;
      s.h == At(b, f.offset) && s.limit == 8 * (f.size - HDR_SIZE) &&
      s.start == (if b[f.offset + 1] % 2 == 0 then 16 else 0) &&
      (f.size >= HDR_SIZE ==> s.buf == b[f.offset + 4..f.End()]) &&
      s.End() == s.start + 8 * (if (b[f.offset + 1] / 8) % 2 == 1 then if mono then 17 else 32
                                else if mono then 9 else 17)
  {
    SideInfoBytes(SideBlock(b, f));
  }

  // ---------------------------------------------------------------- the decoder state and its step

  /**
   * The part of mp3dec_t that decides which bytes are decoded: nothing after mp3dec_init, else the last header and
   * the reservoir.
   */
  datatype State = Fresh | Ready(header: Header, freeFormat: nat, reservoir: seq<Byte>)

  /** Where the next frame is: right at `off` if it continues the stream, otherwise searched for after a reset. */
  ghost function Continuation(st: State, b: seq<Byte>, off: nat): Option<FrameRef>
    requires off <= |b|
  {
    if st.Ready? && |b| - off > HDR_SIZE && st.header.Compare(At(b, off)) then
      var n := FrameSize(b, off, st.freeFormat);
      if n > 0 && (off + n == |b| || Follows(b, off, off + n)) then Some(FrameRef(off, n, st.freeFormat)) else None
    else None
  }

  ghost function Located(st: State, b: seq<Byte>, off: nat): (f: Option<FrameRef>)
    requires off <= |b|
    ensures f.Some? ==> off <= f.value.offset && 0 < f.value.size && f.value.End() <= |b| && HeaderAt(b, f.value.offset)
  {
    if Continuation(st, b, off).Some? then Continuation(st, b, off) else Find(b, off, off)
  }

  /** What one call leaves behind: the new state and whether samples were produced. */
  datatype Outcome = Outcome(state: State, decoded: bool)

  /** The Layer I and II decoders, seen only through whether they read past the frame. */
  type Layer12 = (seq<Byte>, FrameRef) -> bool

  ghost function Decode(st: State, b: seq<Byte>, off: nat, l12: Layer12): Outcome
    requires off <= |b|
  {
    var f := Located(st, b, off);
    if f.None? then Outcome(Fresh, false) else
    var h := At(b, f.value.offset);
    var r := if Continuation(st, b, off).Some? then st.reservoir else [];
    if h.Layer() != 3 then
      if l12(b, f.value) then Outcome(Ready(h, f.value.freeFormat, r), true) else Outcome(Fresh, false)
    else
      match UnitOf(b, f.value)
      case Corrupt => Outcome(Fresh, false)
      case Usable(u) => Outcome(Ready(h, f.value.freeFormat, After(r, u)), Decodes(r, u))
  }

  // ---------------------------------------------------------------- the code

  /** mp3dec_frame_info_t as left by a call; it is filled in only when a frame was found. */
  datatype FrameInfo = FrameInfo(frameOffset: nat, channels: nat, hz: nat, layer: nat, bitrateKbps: nat)

  class Mp3Dec {
    var header: Header
    var freeFormat: nat
    const store: Store

    ghost predicate Valid()
      reads this, store
    {
      store.Valid() && freeFormat < MAX_FREE_FORMAT_FRAME_SIZE
    }

    ghost function State(): State
      requires Valid()
      reads this, store, store.reservBuf
    {
      if header.b0 != 0xff then Fresh else Ready(header, freeFormat, store.Contents())
    }

    /** mp3dec_init on new memory. */
    constructor ()
      ensures Valid() && State() == Fresh && fresh(store) && fresh(store.reservBuf) && fresh(store.maindata)
    {
      header := Header(0, 0, 0, 0);
      freeFormat := 0;
      store := new Store();
    }

    /** mp3dec_init. */
    method Init()
      requires Valid()
      modifies this
      ensures Valid() && State() == Fresh && freeFormat == old(freeFormat)
    {
      header := header.(b0 := 0);
    }

    /**
     * mp3dec_decode_frame on the bytes of `b` from `off` on, with a sample buffer; the granule decoding is not
     * modelled.
     */
    method DecodeFrame(b: seq<Byte>, off: nat, l12: Layer12, gr: array<GrInfo>)
      returns (samples: nat, frameBytes: nat, info: Option<FrameInfo>)
      requires Valid() && off <= |b| && gr.Length >= 4
      modifies this, store, store.reservBuf, store.maindata, gr
      ensures Valid() && State() == Decode(old(State()), b, off, l12).state
      ensures var f := Located(old(State()), b, off);
        if f.None? then info == None && samples == 0 && frameBytes == |b| - off
        else var h := At(b, f.value.offset);
          frameBytes == f.value.End() - off > 0 && off + frameBytes <= |b| &&
          info == Some(FrameInfo(f.value.offset - off, h.Channels(), h.SampleRateHz(), h.Layer(), h.BitrateKbps())) &&
          samples == if Decode(old(State()), b, off, l12).decoded then h.FrameSamples() else 0
    {
      hide Find, UnitOf, FrameSize, After, Decodes, Header.Valid, Header.SampleRateHz, Header.BitrateKbps;
      var skip, size := Locate(b, off);
      if size == 0 || skip + size > |b| - off {
        return 0, skip, None;
      }
      var h := At(b, off + skip);
      header := h;
      frameBytes := skip + size;
      info := Some(FrameInfo(skip, h.Channels(), h.SampleRateHz(), h.Layer(), h.BitrateKbps()));
      var f := FrameRef(off + skip, size, freeFormat);
      var ok;
      if h.Layer() == 3 {
        ok := DecodeLayer3(b, f, h, gr);
      } else {
        ok := l12(b, f);
        if !ok {
          Init();
        }
      }
      samples := if ok then h.FrameSamples() else 0;
    }

    /** The first half of mp3dec_decode_frame: continue the stream at `off`, or reset and search. */
    method Locate(b: seq<Byte>, off: nat) returns (skip: nat, size: nat)
      requires Valid() && off <= |b|
      modifies this, store
      ensures Valid() && skip + size <= |b| - off
      ensures size == 0 ==> Located(old(State()), b, off).None? && State() == Fresh && skip == |b| - off
      ensures size > 0 ==>
                size <= MAX_L3_FRAME_PAYLOAD_BYTES + HDR_SIZE && HeaderAt(b, off + skip) && At(b, off + skip).b0 == 0xff
      ensures size > 0 ==> Located(old(State()), b, off) == Some(FrameRef(off + skip, size, freeFormat))
      ensures size > 0 ==>
                store.Contents() == if Continuation(old(State()), b, off).Some? then old(store.Contents()) else []
    {
      hide Find, FrameSize, Continuation, Header.Valid;
      skip := 0;
      size := TryContinue(b, off);
      if size == 0 {
        header, freeFormat := Header(0, 0, 0, 0), 0;
        store.Clear();
        skip, freeFormat, size := FindFrame(b, off);
        if size > 0 {
          ValidStart(b, off + skip);
        }
      }
    }

    /** The size of the frame at `off` if it continues the stream, else 0. */
    method TryContinue(b: seq<Byte>, off: nat) returns (size: nat)
      requires Valid() && off <= |b|
      ensures off + size <= |b| && (size == 0 <==> Continuation(State(), b, off).None?)
      ensures size > 0 ==> Continuation(State(), b, off) == Some(FrameRef(off, size, freeFormat))
      ensures size > 0 ==> size <= MAX_L3_FRAME_PAYLOAD_BYTES + HDR_SIZE && HeaderAt(b, off) && At(b, off).b0 == 0xff
    {
      hide FrameSize, Header.Compare, Header.Valid;
      var bytes := |b| - off;
      size := 0;
      if bytes > HDR_SIZE && header.b0 == 0xff && header.Compare(At(b, off)) {
        NextHeader(header, b, off, freeFormat);
        size := FrameSize(b, off, freeFormat);
        if size != bytes && (size + HDR_SIZE > bytes || !At(b, off).Compare(At(b, off + size))) {
          size := 0;
        }
      }
    }

    /** The Layer III branch for the frame `f`, whose header `h` has just been stored. */
    method DecodeLayer3(b: seq<Byte>, f: FrameRef, h: Header, gr: array<GrInfo>) returns (success: bool)
      requires Valid() && f.End() <= |b| && f.offset + HDR_SIZE <= |b| && h == At(b, f.offset) && header == h &&
        h.b0 == 0xff
      requires f.size <= MAX_L3_FRAME_PAYLOAD_BYTES + HDR_SIZE && gr.Length >= 4
      modifies this, store, store.reservBuf, store.maindata, gr
      ensures Valid() && freeFormat == old(freeFormat)
      ensures match UnitOf(b, f)
        case Corrupt => State() == Fresh && !success
        case Usable(u) =>
          State() == Ready(h, freeFormat, After(old(store.Contents()), u)) &&
            (success <==> Decodes(old(store.Contents()), u))
    {
      hide Field, Block.Ok, Block.PartSum, Block.MainDataBegin, UnitOf, After, Decodes, MainData, Stored, Header.IsCrc;
      UnitFromSideInfo(b, f);
      var bs := new BitReader(Body(b, f), f.size - HDR_SIZE);
      if h.IsCrc() {
        var crc := bs.GetBits(16);
      }
      var begin, s := ReadSideInfo(bs, gr, h);
      if begin < 0 || bs.pos > bs.limit {
        Init();
        return false;
      }
      SideInfoBytes(s);
      var used := UsedBits(gr, (if h.TestMpeg1() then 2 else 1) * h.Channels(), s);
      success := store.Frame(bs, begin, used, UnitOf(b, f).frame);
    }
  }

  lemma ValidStart(b: seq<Byte>, i: nat)
    requires HeaderAt(b, i)
    ensures At(b, i).b0 == 0xff
  {}

  lemma NextHeader(h: Header, b: seq<Byte>, i: nat, ff: nat)
    requires i + HDR_SIZE <= |b| && h.Compare(At(b, i)) && ff < MAX_FREE_FORMAT_FRAME_SIZE
    ensures HeaderAt(b, i) && At(b, i).b0 == 0xff && FrameSize(b, i, ff) <= MAX_L3_FRAME_PAYLOAD_BYTES + HDR_SIZE
  {
    FrameLengthFromHeader(At(b, i), ff);
  }

  lemma UnitFromSideInfo(b: seq<Byte>, f: FrameRef)
    requires f.End() <= |b| && f.offset + HDR_SIZE <= |b|
    ensures var s := SideBlock(b, f);
      if !s.Ok() || s.End() > s.limit then UnitOf(b, f) == Corrupt
      else UnitOf(b, f).Usable? &&
           UnitOf(b, f).frame == L3Frame(s.MainDataBegin(), s.PartSum(s.Granules()), s.buf[s.End() / 8..s.limit / 8])
  {
    hide Field, Block.Ok, Block.PartSum;
    var s := SideBlock(b, f);
    if s.End() <= s.limit {
      assert |s.buf| == s.limit / 8;
    }
  }

  /** The bits the granules read: each one ends where its part2_3_length says. */
  method UsedBits(gr: array<GrInfo>, granules: nat, ghost s: Block) returns (used: nat)
    requires s.Valid() && gr.Length >= granules == s.Granules() && Stored(s, granules, gr[..])
    ensures used == s.PartSum(granules)
  {
    hide Field, MatchesWindow, Block.GranuleOk;
    used := 0;
    for g := 0 to granules
      invariant used == s.PartSum(g)
    {
      used := used + PartOf(s, g, gr[g]);
    }
  }

  // ---------------------------------------------------------------- the frames a decoder takes

  ghost function UnitAt(b: seq<Byte>, f: FrameRef, l12: Layer12): (u: Unit)
    requires f.End() <= |b| && f.offset + HDR_SIZE <= |b|
    ensures u.Usable? ==> u.frame.Valid()
    ensures !u.Final?
  {
    if At(b, f.offset).Layer() == 3 then UnitOf(b, f)
    else if l12(b, f) then Usable(L3Frame(0, 0, [])) else Corrupt
  }

  /** The decoder behind frame `f`, but for what is in its reservoir. */
  ghost function Behind(b: seq<Byte>, f: FrameRef, l12: Layer12): State
    requires f.End() <= |b| && f.offset + HDR_SIZE <= |b|
  {
    if UnitAt(b, f, l12).Corrupt? then Fresh else Ready(At(b, f.offset), f.freeFormat, [])
  }

  /** The states differ in their reservoirs at most. */
  predicate Alike(st: State, other: State) {
    (st.Ready? <==> other.Ready?) &&
    (st.Ready? ==> st.header == other.header && st.freeFormat == other.freeFormat)
  }

  lemma LocatedAlike(st: State, other: State, b: seq<Byte>, off: nat)
    requires Alike(st, other) && off <= |b|
    ensures Continuation(st, b, off) == Continuation(other, b, off) && Located(st, b, off) == Located(other, b, off)
  {
    hide Find, FrameSize, Header.Compare, Header.Valid;
  }

  /** A search that starts at frame `f` takes it. */
  ghost predicate Found(b: seq<Byte>, f: FrameRef) {
    f.offset <= |b| && Find(b, f.offset, f.offset) == Some(f)
  }

  ghost predicate Indexed(b: seq<Byte>, fs: seq<FrameRef>) {
    forall j :: 0 <= j < |fs| ==> fs[j].End() <= |b| && fs[j].offset + HDR_SIZE <= |b|
  }

  /**
   * A search finds the first frame; the call behind frame `j - 1` takes frame `j`, or finds nothing behind the last
   * one.
   */
  ghost predicate TakenAt(b: seq<Byte>, fs: seq<FrameRef>, l12: Layer12, j: nat)
    requires Indexed(b, fs) && j <= |fs|
  {
    if j == 0 then |fs| > 0 ==> Found(b, fs[0])
    else Located(Behind(b, fs[j - 1], l12), b, fs[j - 1].End()) == if j < |fs| then Some(fs[j]) else None
  }

  /**
   * The frames `fs` are those that a fresh decoder takes, call after call, from the first one on. Between frames there
   * may be bytes that are skipped.
   */
  ghost predicate Taken(b: seq<Byte>, fs: seq<FrameRef>, l12: Layer12) {
    Indexed(b, fs) && forall j :: 0 <= j <= |fs| ==> TakenAt(b, fs, l12, j)
  }

  /** What successive calls take from `off` on, the first of them in state `st`. */
  ghost function AllTaken(b: seq<Byte>, l12: Layer12, st: State, off: nat): seq<FrameRef>
    requires off <= |b|
    decreases |b| - off
  {
    var f := Located(st, b, off);
    if f.None? then [] else [f.value] + AllTaken(b, l12, Decode(st, b, off, l12).state, f.value.End())
  }

  lemma DecodedAlike(st: State, b: seq<Byte>, off: nat, l12: Layer12)
    requires off <= |b| && Located(st, b, off).Some?
    ensures var f := Located(st, b, off).value;
      f.offset + HDR_SIZE <= |b| && Alike(Decode(st, b, off, l12).state, Behind(b, f, l12))
  {
    hide Find, FrameSize, Header.Compare, Header.Valid, UnitOf, Continuation, After;
  }

  lemma {:induction false} TakenNext(b: seq<Byte>, l12: Layer12, st: State, off: nat)
    requires off <= |b|
    ensures var fs := AllTaken(b, l12, st, off);
      (Located(st, b, off) == if |fs| > 0 then Some(fs[0]) else None) &&
      Indexed(b, fs) && forall j :: 0 < j <= |fs| ==> TakenAt(b, fs, l12, j)
    decreases |b| - off
  {
    hide Located, Decode, Behind, Header.Valid;
    var f := Located(st, b, off);
    if f.Some? {
      var then_ := Decode(st, b, off, l12).state;
      var fs, rest := AllTaken(b, l12, st, off), AllTaken(b, l12, then_, f.value.End());
      TakenNext(b, l12, then_, f.value.End());
      DecodedAlike(st, b, off, l12);
      LocatedAlike(then_, Behind(b, f.value, l12), b, f.value.End());
      forall j | 0 < j <= |fs| ensures TakenAt(b, fs, l12, j) {
        assert j > 1 ==> TakenAt(b, rest, l12, j - 1);
      }
    }
  }

  /** A frame found from some offset on is found again from its own. */
  lemma FoundAgain(b: seq<Byte>, lo: nat)
    requires Find(b, lo, lo).Some?
    ensures Found(b, Find(b, lo, lo).value)
  {
    hide Chained, FreeLength, Header.Valid, Header.FrameBytes;
    var f := Find(b, lo, lo).value;
    FoundInScan(b, lo, lo);
    assert Accepted(b, lo, f.offset) == Some(f);
    assert Accepted(b, f.offset, f.offset) == Some(f);
  }

  lemma FirstIsFound(b: seq<Byte>, fs: seq<FrameRef>, l12: Layer12)
    requires Taken(b, fs, l12) && |fs| > 0
    ensures Found(b, fs[0]) && fs[0].offset <= |b|
  {
    hide Found;
    assert TakenAt(b, fs, l12, 0);
  }

  lemma FirstTaken(b: seq<Byte>, fs: seq<FrameRef>, l12: Layer12)
    requires Indexed(b, fs)
    ensures TakenAt(b, fs, l12, 0) <==> (|fs| > 0 ==> Found(b, fs[0]))
  {
    hide Found;
  }

  /** The calls of a fresh decoder from any offset of any buffer take such frames. */
  lemma EveryStreamIsTaken(b: seq<Byte>, l12: Layer12, off: nat)
    requires off <= |b|
    ensures var fs := AllTaken(b, l12, Fresh, off);
      Taken(b, fs, l12) && (Find(b, off, off) == if |fs| > 0 then Some(fs[0]) else None)
  {
    hide Find, AllTaken, Indexed, TakenAt;
    TakenNext(b, l12, Fresh, off);
    assert Located(Fresh, b, off) == Find(b, off, off);
    if Find(b, off, off).Some? { FoundAgain(b, off); }
    FirstTaken(b, AllTaken(b, l12, Fresh, off), l12);
  }

  lemma {:induction false} TakenRest(b: seq<Byte>, fs: seq<FrameRef>, l12: Layer12, j: nat, st: State)
    requires Taken(b, fs, l12) && 0 < j <= |fs| && Alike(st, Behind(b, fs[j - 1], l12))
    ensures AllTaken(b, l12, st, fs[j - 1].End()) == fs[j..]
    decreases |fs| - j
  {
    hide Located, Decode, Behind, Found, HeaderAt, Alike;
    assert TakenAt(b, fs, l12, j);
    LocatedAlike(st, Behind(b, fs[j - 1], l12), b, fs[j - 1].End());
    if j < |fs| {
      DecodedAlike(st, b, fs[j - 1].End(), l12);
      TakenRest(b, fs, l12, j + 1, Decode(st, b, fs[j - 1].End(), l12).state);
    }
  }

  /** They are the only ones: what the first search finds determines them all. */
  lemma TakenIff(b: seq<Byte>, fs: seq<FrameRef>, l12: Layer12, off: nat)
    requires off <= |b| && Find(b, off, off) == if |fs| > 0 then Some(fs[0]) else None
    ensures Taken(b, fs, l12) <==> fs == AllTaken(b, l12, Fresh, off)
  {
    hide Find, Located, Behind, TakenAt, Decode, Alike;
    EveryStreamIsTaken(b, l12, off);
    LocatedFresh(b, off);
    if Taken(b, fs, l12) && |fs| > 0 {
      DecodedAlike(Fresh, b, off, l12);
      TakenRest(b, fs, l12, 1, Decode(Fresh, b, off, l12).state);
    }
  }

  lemma LocatedFresh(b: seq<Byte>, off: nat)
    requires off <= |b|
    ensures Located(Fresh, b, off) == Find(b, off, off)
  {
    hide Find;
  }

  lemma FoundInScan(b: seq<Byte>, lo: nat, i: nat)
    requires Find(b, lo, i).Some?
    ensures InScan(b, Find(b, lo, i).value.offset)
    decreases |b| - i
  {}

  lemma SizeFromHeader(b: seq<Byte>, lo: nat, i: nat)
    requires HeaderAt(b, i) && Accepted(b, lo, i).Some?
    ensures var f := Accepted(b, lo, i).value; f.size == FrameSize(b, i, f.freeFormat)
  {
    FreeLengthIsCandidate(b, i, HDR_SIZE);
    FrameLengthFromHeader(At(b, i), Accepted(b, lo, i).value.freeFormat);
  }

  /**
   * A frame as a decoder takes it: it has the length its header gives, and the range or another header of its stream
   * follows.
   */
  ghost predicate Stands(b: seq<Byte>, f: FrameRef) {
    HeaderAt(b, f.offset) && InScan(b, f.offset) && 0 < f.size == FrameSize(b, f.offset, f.freeFormat) &&
    f.End() <= |b| &&
    (f.End() == |b| || Follows(b, f.offset, f.End()))
  }

  lemma AcceptedFollows(b: seq<Byte>, lo: nat, i: nat)
    requires HeaderAt(b, i) && Accepted(b, lo, i).Some?
    ensures var f := Accepted(b, lo, i).value; f.End() == |b| || Follows(b, i, f.End())
  {
    hide Chained, FreeCandidate, Header.Valid, Header.Compare, Header.FrameBytes;
    var h, f := At(b, i), Accepted(b, lo, i).value;
    FrameLengthFromHeader(h, f.freeFormat);
    FrameLengthFromHeader(h, 0);
    if h.IsFreeFormat() {
      FreeLengthIsCandidate(b, i, HDR_SIZE);
      ChainedFollows(b, i, f.freeFormat);
    } else if Chained(b, i, h.FrameBytes(0)) {
      FrameLengthFromHeader(h, h.FrameBytes(0));
      SameLength(h, 0, h.FrameBytes(0));
      ChainedFollows(b, i, h.FrameBytes(0));
    }
  }

  lemma LocatedStands(st: State, b: seq<Byte>, off: nat)
    requires off <= |b| && Located(st, b, off).Some?
    ensures Stands(b, Located(st, b, off).value)
  {
    hide Accepted, FrameSize, Header.Compare, Header.Valid;
    if Continuation(st, b, off).None? {
      var f := Find(b, off, off).value;
      FoundInScan(b, off, off);
      SizeFromHeader(b, off, f.offset);
      AcceptedFollows(b, off, f.offset);
    }
  }

  /** The frame taken is there, and a decoder that continues continues at its first byte. */
  lemma TakenFrame(b: seq<Byte>, fs: seq<FrameRef>, l12: Layer12, j: nat)
    requires Taken(b, fs, l12) && j < |fs|
    ensures Stands(b, fs[j]) && fs[j].offset + HDR_SIZE < |b|
    ensures j > 0 ==> fs[j - 1].End() <= fs[j].offset
    ensures j > 0 && Continuation(Behind(b, fs[j - 1], l12), b, fs[j - 1].End()).Some? ==>
              fs[j].offset == fs[j - 1].End() && fs[j].freeFormat == fs[j - 1].freeFormat &&
              At(b, fs[j - 1].offset).Compare(At(b, fs[j].offset))
  {
    hide Find, FrameSize, Header.Compare, Header.Valid, UnitAt;
    if j > 0 {
      assert TakenAt(b, fs, l12, j);
      LocatedStands(Behind(b, fs[j - 1], l12), b, fs[j - 1].End());
    } else {
      assert TakenAt(b, fs, l12, 0);
      FoundStands(b, fs[0]);
    }
  }

  lemma FoundStands(b: seq<Byte>, f: FrameRef)
    requires Found(b, f)
    ensures Stands(b, f)
  {
    hide Find, FrameSize, Header.Valid, Stands;
    LocatedStands(Fresh, b, f.offset);
    assert Located(Fresh, b, f.offset) == Find(b, f.offset, f.offset);
  }

  /** A frame that is cut short by the end of the range is not taken. */
  lemma CutFrameIsLast(b: seq<Byte>, f: FrameRef, l12: Layer12)
    requires f.End() <= |b| && f.offset + HDR_SIZE <= |b|
    requires HeaderAt(b, f.End()) && f.End() + FrameSize(b, f.End(), f.freeFormat) > |b|
    requires Find(b, f.End(), f.End()).None?
    ensures Located(Behind(b, f, l12), b, f.End()).None?
  {
    hide Find, FrameSize, Header.Valid, Header.Compare, UnitAt;
  }

  /**
   * A decoder that has taken a frame of a row continues to the next one, but to the last only at the end of the
   * range.
   */
  lemma RowIsContinued(b: seq<Byte>, fs: seq<FrameRef>, j: nat, r: seq<Byte>)
    requires Row(b, fs, 0) && 0 < j < |fs| && fs[j].freeFormat == 0 && fs[j].End() <= |b|
    requires HeaderAt(b, fs[j].offset) && !At(b, fs[j].offset).IsFreeFormat() && InScan(b, fs[j].offset)
    ensures fs[j - 1].offset + HDR_SIZE <= |b| && fs[j].offset <= |b|
    ensures Continuation(Ready(At(b, fs[j - 1].offset), 0, r), b, fs[j].offset)
         == if j + 1 < |fs| || fs[j].End() == |b| then Some(fs[j]) else None
  {
    hide Header.Valid, Header.Compare, Header.FrameBytes, Header.IsFreeFormat;
    assert Lies(b, fs, 0, j - 1) && Lies(b, fs, 0, j);
    FrameLengthFromHeader(At(b, fs[j].offset), 0);
  }

  /**
   * A search takes a frame of a row if and only if ten more frames follow, or, when nothing but the end of the range
   * comes behind the row, at least one does, or when it starts at the frame and the frame is all there is. So before
   * a gap it misses up to nine frames that a decoder would continue to.
   */
  lemma RowIsFound(b: seq<Byte>, fs: seq<FrameRef>, lo: nat, j: nat)
    requires Row(b, fs, 0) && j < |fs| && fs[j].freeFormat == 0 && fs[j].End() <= |b|
    requires HeaderAt(b, fs[j].offset) && !At(b, fs[j].offset).IsFreeFormat() && InScan(b, fs[j].offset)
    ensures var f, gap := fs[j], fs[|fs| - 1].End() + HDR_SIZE <= |b|;
      var long := j + (if gap then 10 else 1) < |fs|;
      Accepted(b, lo, f.offset) == (if long || (f.offset == lo && f.End() == |b|) then Some(f) else None) &&
      (Found(b, f) <==> long || f.End() == |b|)
  {
    hide Header.Valid, Header.Compare, Header.FrameBytes, Header.IsFreeFormat, Chained, FreeLength, Row;
    LengthInRow(b, fs, j);
    var h := At(b, fs[j].offset);
    SameLength(h, 0, h.FrameBytes(0));
    FrameLengthFromHeader(h, 0);
    ChainedIff(b, fs, 0, j);
    ChainedAlike(b, fs[j].offset, 0, h.FrameBytes(0));
    FoundIsAccepted(b, fs[j]);
  }

  lemma LengthInRow(b: seq<Byte>, fs: seq<FrameRef>, j: nat)
    requires Row(b, fs, 0) && j < |fs|
    ensures HeaderAt(b, fs[j].offset) && fs[j].size == FrameSize(b, fs[j].offset, 0)
  {
    hide Header.Valid, Header.FrameBytes;
    assert Lies(b, fs, 0, j);
  }

  lemma FoundIsAccepted(b: seq<Byte>, f: FrameRef)
    requires HeaderAt(b, f.offset) && InScan(b, f.offset)
    ensures Found(b, f) <==> Accepted(b, f.offset, f.offset) == Some(f)
  {
    hide Accepted, Header.Valid;
  }

  // ---------------------------------------------------------------- runs over the frames taken

  /** Frame `j` in its place: whether the decoder continues behind it. */
  ghost function UnitIn(b: seq<Byte>, fs: seq<FrameRef>, l12: Layer12, j: nat): (u: Unit)
    requires Indexed(b, fs) && j < |fs|
    ensures !u.Corrupt? ==> u.frame.Valid()
    ensures u.Corrupt? <==> UnitAt(b, fs[j], l12).Corrupt?
    ensures !u.Corrupt? ==> u.frame == UnitAt(b, fs[j], l12).frame
  {
    var u := UnitAt(b, fs[j], l12);
    if u.Usable? && j + 1 < |fs| && Continuation(Behind(b, fs[j], l12), b, fs[j].End()).None? then Final(u.frame) else u
  }

  /** The frames as the reservoir logic sees them; Layer I and II frames use no reservoir. */
  ghost function Units(b: seq<Byte>, fs: seq<FrameRef>, l12: Layer12): (us: seq<Unit>)
    requires Taken(b, fs, l12)
    ensures |us| == |fs| && ValidUnits(us)
  {
    seq(|fs|, j requires 0 <= j < |fs| => UnitIn(b, fs, l12, j))
  }

  /** Where the decoder is called for frame `k` when decoding starts at frame `i`. */
  function CalledAt(fs: seq<FrameRef>, i: nat, k: nat): nat
    requires i <= k <= |fs| && i < |fs|
  {
    if k == i then fs[i].offset else fs[k - 1].End()
  }

  /** The decoder state before frame `k` when decoding starts afresh at frame `i`. */
  ghost function StateAt(b: seq<Byte>, fs: seq<FrameRef>, l12: Layer12, i: nat, k: nat): State
    requires Indexed(b, fs) && i <= k <= |fs| && i < |fs|
    decreases k
  {
    if k == i then Fresh else Decode(StateAt(b, fs, l12, i, k - 1), b, CalledAt(fs, i, k - 1), l12).state
  }

  /** The decoder state that the run of the reservoir logic predicts before frame `k`. */
  ghost function StateOfRun(b: seq<Byte>, fs: seq<FrameRef>, l12: Layer12, i: nat, k: nat): State
    requires Taken(b, fs, l12) && i <= k <= |fs|
  {
    var us := Units(b, fs, l12);
    if k == i || us[k - 1].Corrupt? then Fresh
    else Ready(At(b, fs[k - 1].offset), fs[k - 1].freeFormat, After(Run(us, i, k - 1), us[k - 1].frame))
  }

  /** Over any buffer the byte-level decoder performs the reservoir run over the frames it takes. */
  lemma {:induction false} DecoderPerformsRun(b: seq<Byte>, fs: seq<FrameRef>, l12: Layer12, i: nat, k: nat)
    requires Taken(b, fs, l12) && i <= k <= |fs| && i < |fs| && Found(b, fs[i])
    ensures StateAt(b, fs, l12, i, k) == StateOfRun(b, fs, l12, i, k)
    decreases k
  {
    hide Taken, Decode, StateOfRun, Found;
    if k > i {
      DecoderPerformsRun(b, fs, l12, i, k - 1);
      OneDecode(b, fs, l12, i, k - 1);
    } else {
      RunStartsFresh(b, fs, l12, i);
    }
  }

  lemma RunStartsFresh(b: seq<Byte>, fs: seq<FrameRef>, l12: Layer12, i: nat)
    requires Taken(b, fs, l12) && i <= |fs|
    ensures StateOfRun(b, fs, l12, i, i) == Fresh
  {}

  lemma TakenIsIndexed(b: seq<Byte>, fs: seq<FrameRef>, l12: Layer12)
    requires Taken(b, fs, l12)
    ensures Indexed(b, fs)
  {}

  lemma UnitsAre(b: seq<Byte>, fs: seq<FrameRef>, l12: Layer12, k: nat)
    requires Taken(b, fs, l12) && k < |fs|
    ensures Indexed(b, fs) && Units(b, fs, l12)[k] == UnitIn(b, fs, l12, k)
  {
    hide UnitAt, Continuation;
  }

  /** In the state of a run the decoder takes the next frame, and it continues if and only if the one before says so. */
  lemma LocatedInRun(b: seq<Byte>, fs: seq<FrameRef>, l12: Layer12, i: nat, k: nat)
    requires Taken(b, fs, l12) && i <= k < |fs| && Found(b, fs[i])
    ensures var st := StateOfRun(b, fs, l12, i, k);
      CalledAt(fs, i, k) <= |b| && Located(st, b, CalledAt(fs, i, k)) == Some(fs[k]) &&
      (Continuation(st, b, CalledAt(fs, i, k)).Some? <==> k > i && Units(b, fs, l12)[k - 1].Usable?)
  {
    hide Find, FrameSize, Header.Compare, Header.Valid, UnitAt, After, Run;
    var st := StateOfRun(b, fs, l12, i, k);
    if k > i {
      assert TakenAt(b, fs, l12, k);
      assert Units(b, fs, l12)[k - 1] == UnitIn(b, fs, l12, k - 1);
      LocatedAlike(st, Behind(b, fs[k - 1], l12), b, fs[k - 1].End());
    }
  }

  /** Behind the last frame nothing is found. */
  lemma NothingBehind(b: seq<Byte>, fs: seq<FrameRef>, l12: Layer12, i: nat)
    requires Taken(b, fs, l12) && i < |fs|
    ensures var e := fs[|fs| - 1].End(); e <= |b| && Located(StateOfRun(b, fs, l12, i, |fs|), b, e).None?
  {
    hide Find, FrameSize, Header.Compare, Header.Valid, UnitAt, After, Run;
    var n := |fs|;
    assert TakenAt(b, fs, l12, n);
    assert Units(b, fs, l12)[n - 1] == UnitIn(b, fs, l12, n - 1);
    LocatedAlike(StateOfRun(b, fs, l12, i, n), Behind(b, fs[n - 1], l12), b, fs[n - 1].End());
  }

  lemma SameLayer(h1: Header, h2: Header)
    requires h1.Compare(h2)
    ensures h1.Layer() == h2.Layer()
  {}

  /** A frame of Layer I or II that follows another one: both are of the same layer. */
  lemma LayerStays(b: seq<Byte>, fs: seq<FrameRef>, l12: Layer12, k: nat)
    requires Taken(b, fs, l12) && 0 < k < |fs| && Units(b, fs, l12)[k - 1].Usable?
    ensures At(b, fs[k - 1].offset).Layer() == At(b, fs[k].offset).Layer()
  {
    hide Header.Compare, Header.Valid, Header.GetLayer, Find, UnitAt, Taken, Continuation;
    TakenFrame(b, fs, l12, k);
    UnitsAre(b, fs, l12, k - 1);
    SameLayer(At(b, fs[k - 1].offset), At(b, fs[k].offset));
  }

  /** A Layer I or II stream never has anything in the reservoir. */
  lemma {:induction false} NoReservoirInLayer12(b: seq<Byte>, fs: seq<FrameRef>, l12: Layer12, i: nat, k: nat)
    requires Taken(b, fs, l12) && i <= k < |fs| && At(b, fs[k].offset).Layer() != 3
    ensures Run(Units(b, fs, l12), i, k) == []
    decreases k
  {
    hide Header.GetLayer, Header.Compare, Header.Valid, HeaderAt, UnitOf, Taken, Run, After;
    var us := Units(b, fs, l12);
    RunStep(us, i, k);
    if k > i && us[k - 1].Usable? {
      LayerStays(b, fs, l12, k);
      NoReservoirInLayer12(b, fs, l12, i, k - 1);
      UnitsAre(b, fs, l12, k - 1);
      RunStep(us, i, k - 1);
    }
  }

  lemma RunStep(us: seq<Unit>, i: nat, k: nat)
    requires ValidUnits(us) && i <= k < |us|
    ensures us[k].Usable? ==> Run(us, i, k + 1) == After(Run(us, i, k), us[k].frame)
    ensures !us[k].Corrupt? && us[k].frame == L3Frame(0, 0, []) && Run(us, i, k) == [] ==> After([], us[k].frame) == []
    ensures us[k].Usable? && us[k].frame == L3Frame(0, 0, []) && Run(us, i, k) == [] ==> Run(us, i, k + 1) == []
    ensures k == i || !us[k - 1].Usable? ==> Run(us, i, k) == []
    ensures k > i && us[k - 1].Usable? ==> Run(us, i, k) == After(Run(us, i, k - 1), us[k - 1].frame)
  {}

  /**
   * In the predicted state frame `k` is decoded exactly when the run says so, and leads to the next predicted state.
   */
  lemma OneDecode(b: seq<Byte>, fs: seq<FrameRef>, l12: Layer12, i: nat, k: nat)
    requires Taken(b, fs, l12) && i <= k < |fs| && Found(b, fs[i])
    ensures CalledAt(fs, i, k) <= |b|
    ensures Decode(StateOfRun(b, fs, l12, i, k), b, CalledAt(fs, i, k), l12)
         == Outcome(StateOfRun(b, fs, l12, i, k + 1), DecodesAt(Units(b, fs, l12), i, k))
  {
    hide Taken, Found, UnitOf, Run, Located, Continuation, Header.Compare, Header.Valid, After, CalledAt;
    var us := Units(b, fs, l12);
    LocatedInRun(b, fs, l12, i, k);
    UnitsAre(b, fs, l12, k);
    if k > i { UnitsAre(b, fs, l12, k - 1); }
    RunStep(us, i, k);
    if At(b, fs[k].offset).Layer() != 3 {
      NoReservoirInLayer12(b, fs, l12, i, k);
    }
  }

  // ---------------------------------------------------------------- the back-fill of mp3dec_ex_seek

  /** What the back-fill loop counts for a frame: its main data bytes, negative when the side info is cut short. */
  function FillBytes(b: seq<Byte>, f: FrameRef): int
    requires f.End() <= |b| && f.offset + HDR_SIZE <= |b|
  {
    var s := SideBlock(b, f);
    f.size - HDR_SIZE - s.End() / 8
  }

  /** The bytes counted over the frames i to m - 1. */
  ghost function Fill(b: seq<Byte>, fs: seq<FrameRef>, i: nat, m: nat): int
    requires Indexed(b, fs) && i <= m <= |fs|
    decreases m - i
  {
    if i == m then 0 else FillBytes(b, fs[i]) + Fill(b, fs, i + 1, m)
  }

  ghost predicate SideInfoFails(b: seq<Byte>, f: FrameRef)
    requires f.End() <= |b| && f.offset + HDR_SIZE <= |b|
  {
    !SideBlock(b, f).Ok()
  }

  /** Where the back-fill from frame `m` may stop. */
  ghost predicate BackFilled(b: seq<Byte>, fs: seq<FrameRef>, i: nat, m: nat)
    requires Indexed(b, fs) && m <= |fs|
  {
    i <= m && (i == 0 || (i < m && SideInfoFails(b, fs[i])) || Fill(b, fs, i, m) >= MAX_BITRESERVOIR_BYTES)
  }

  /** Where it does stop: at the first such frame. */
  ghost predicate BackFillStops(b: seq<Byte>, fs: seq<FrameRef>, i: nat, m: nat)
    requires Indexed(b, fs) && m <= |fs|
  {
    BackFilled(b, fs, i, m) &&
    (forall j :: i < j < m ==> !SideInfoFails(b, fs[j])) &&
    (forall j :: i < j <= m ==> Fill(b, fs, j, m) < MAX_BITRESERVOIR_BYTES)
  }

  lemma BackFillStopsOnce(b: seq<Byte>, fs: seq<FrameRef>, i: nat, j: nat, m: nat)
    requires Indexed(b, fs) && m <= |fs| && BackFillStops(b, fs, i, m) && BackFillStops(b, fs, j, m)
    ensures i == j
  {
    hide SideInfoFails, FillBytes, Indexed;
  }

  /** The side info of one frame, read ahead of decoding. */
  method CountFrame(b: seq<Byte>, f: FrameRef, gr: array<GrInfo>) returns (ok: bool, frameBytes: int)
    requires f.End() <= |b| && f.offset + HDR_SIZE <= |b| && gr.Length >= 4
    modifies gr
    ensures ok <==> !SideInfoFails(b, f)
    ensures ok ==> frameBytes == FillBytes(b, f)
  {
    hide Field, Block.Ok, Stored, Header.IsCrc;
    var bs := new BitReader(Body(b, f), f.size - HDR_SIZE);
    var h := At(b, f.offset);
    if h.IsCrc() {
      var crc := bs.GetBits(16);
    }
    var r, s := ReadSideInfo(bs, gr, h);
    if r >= 0 {
      SideInfoBytes(s);
      ok, frameBytes := true, (bs.limit - bs.pos) / 8;
    } else {
      ok, frameBytes := false, 0;
    }
  }

  /**
   * The loop that moves the start back from frame `m` until 511 bytes of main data precede `m`, the first frame is
   * reached, or a frame with illegal side info is met (decoding starts afresh after it).
   */
  method BackFill(b: seq<Byte>, fs: seq<FrameRef>, m: nat, gr: array<GrInfo>) returns (i: nat)
    requires Indexed(b, fs) && m <= |fs| && gr.Length >= 4
    modifies gr
    ensures BackFillStops(b, fs, i, m)
  {
    hide SideInfoFails, FillBytes;
    i := m;
    var toFill: int := MAX_BITRESERVOIR_BYTES;
    while i > 0 && toFill > 0
      invariant i <= m && toFill >= 0
      invariant toFill > 0 ==> toFill == MAX_BITRESERVOIR_BYTES - Fill(b, fs, i, m)
      invariant toFill == 0 ==> Fill(b, fs, i, m) >= MAX_BITRESERVOIR_BYTES
      invariant forall j :: i <= j < m ==> !SideInfoFails(b, fs[j])
      invariant forall j :: i < j <= m ==> Fill(b, fs, j, m) < MAX_BITRESERVOIR_BYTES
    {
      var ok, frameBytes := CountFrame(b, fs[i - 1], gr);
      i := i - 1;
      if !ok {
        break;
      }
      toFill := toFill - (if toFill > frameBytes then frameBytes else toFill);
    }
  }

  /** Over usable Layer III frames the bytes counted are the main data of the reservoir run. */
  lemma {:induction false} FillIsStream(b: seq<Byte>, fs: seq<FrameRef>, us: seq<Unit>, i: nat, m: nat)
    requires Indexed(b, fs) && i <= m <= |fs| == |us| && Unbroken(us, i, m)
    requires forall j :: i <= j < m ==> FillBytes(b, fs[j]) == |us[j].frame.data|
    ensures |Stream(us, i, m)| == Fill(b, fs, i, m)
    decreases m - i
  {
    hide FillBytes, Indexed;
    if i < m {
      FillIsStream(b, fs, us, i + 1, m);
      StreamFromLeft(us, i, m);
    }
  }

  lemma FillOne(b: seq<Byte>, f: FrameRef, l12: Layer12)
    requires f.End() <= |b| && f.offset + HDR_SIZE <= |b| && At(b, f.offset).Layer() == 3
    requires UnitAt(b, f, l12).Usable?
    ensures FillBytes(b, f) == |UnitAt(b, f, l12).frame.data|
  {
    hide Field, Block.Ok, UnitOf;
    UnitFromSideInfo(b, f);
    SideInfoBytes(SideBlock(b, f));
  }

  lemma {:induction false} StreamFromLeft(us: seq<Unit>, i: nat, m: nat)
    requires i < m <= |us| && Unbroken(us, i, m)
    ensures |Stream(us, i, m)| == |us[i].frame.data| + |Stream(us, i + 1, m)|
    decreases m
  {
    if m > i + 1 {
      StreamFromLeft(us, i, m - 1);
    } else {
      assert Stream(us, i, i) == [];
    }
  }

  /** Wherever the back-fill stops, the restart is filled in the sense of the resynchronisation theorem. */
  lemma BackFillFills(b: seq<Byte>, fs: seq<FrameRef>, l12: Layer12, i: nat, m: nat)
    requires Taken(b, fs, l12) && Indexed(b, fs) && i <= m <= |fs|
    requires forall j :: i <= j < m ==> At(b, fs[j].offset).Layer() == 3
    requires BackFilled(b, fs, i, m)
    ensures Filled(Units(b, fs, l12), i, m)
  {
    hide FillBytes, UnitOf, Taken, Continuation;
    var us := Units(b, fs, l12);
    if i < m && SideInfoFails(b, fs[i]) {
      assert us[i] == UnitIn(b, fs, l12, i);
      UnitFromSideInfo(b, fs[i]);
    } else if i > 0 && Unbroken(us, i, m) {
      forall j | i <= j < m ensures FillBytes(b, fs[j]) == |us[j].frame.data| {
        assert us[j] == UnitIn(b, fs, l12, j);
        FillOne(b, fs[j], l12);
      }
      FillIsStream(b, fs, us, i, m);
    }
  }
}
