/** Concrete streams, byte by byte, on which the hypotheses about streams hold and the limits of seeking show. */
module Witness {
  import opened Bits
  import opened Header
  import opened SideInfo
  import opened Sync
  import opened Reservoir
  import opened Decoder
  import opened Index
  import opened Player
  import opened Seeking
  import opened Counting
  import opened Accuracy
  import opened Exactness
  import opened Playback
  import opened Load
  import opened Wrappers

  /** The length of a frame: MPEG-1 Layer III, 192 kbps, 48 kHz, mono, with 17 bytes of side info. */
  const SIZE: nat := 576

  /**
   * A plain frame is silent and keeps to itself. One that refers back takes one byte of the reservoir and uses 4088
   * bits, which leaves 45 bytes of its main data. The side info of a broken one is illegal.
   */
  datatype Kind = Plain | Refers | Broken

  /** Bytes 1 to 4 of the side info. */
  function Second(k: Kind): Byte { if k == Refers then 0x80 else 0 }
  function Third(k: Kind): Byte { if k == Refers then 0x3F else 0 }
  function Fourth(k: Kind): Byte { if k == Refers then 0xE0 else if k == Broken then 0x03 else 0 }
  function Fifth(k: Kind): Byte { if k == Broken then 0xFE else 0 }

  /** Byte `r` of a frame. */
  function ByteOf(k: Kind, r: nat): Byte {
    if r == 0 then 0xFF else if r == 1 then 0xFB else if r == 2 then 0xB4 else if r == 3 then 0xC0
    else if r == 5 then Second(k) else if r == 6 then Third(k) else if r == 7 then Fourth(k)
    else if r == 8 then Fifth(k)
    else 0
  }

  /** Which frame byte `i` is in: past the given ones a plain one. */
  function KindAt(ks: seq<Kind>, i: nat): Kind { if i / SIZE < |ks| then ks[i / SIZE] else Plain }

  /** The frames `ks` and the first `cut` bytes of another one. */
  function Bytes(ks: seq<Kind>, cut: nat): (b: seq<Byte>)
    ensures |b| == SIZE * |ks| + cut
    ensures forall i :: 0 <= i < |b| ==> b[i] == ByteOf(KindAt(ks, i), i % SIZE)
  {
    seq(SIZE * |ks| + cut, i requires i >= 0 => ByteOf(KindAt(ks, i), i % SIZE))
  }

  function Frame(j: nat): FrameRef { FrameRef(SIZE * j, SIZE, 0) }

  function FramesOf(n: nat): seq<FrameRef> { seq(n, j requires j >= 0 => Frame(j)) }

  function Head(): Header { Header(0xFF, 0xFB, 0xB4, 0xC0) }

  /** The rest, if any, holds a header but not a whole frame. */
  predicate CutIsShort(cut: nat) { cut == 0 || HDR_SIZE <= cut < SIZE }

  lemma HeadMeans()
    ensures Head().Valid() && !Head().IsFreeFormat() && !Head().IsCrc() && Head().TestMpeg1() && Head().IsMono()
    ensures Head().Padding() == 0 && Head().Layer() == 3 && Head().Compare(Head())
    ensures Head().Channels() == 1 && Head().SampleRateHz() == 48000 && Head().FrameSamples() == 1152
    ensures forall ff :: Head().FrameBytes(ff) == SIZE
  {
    assert Head().BitrateKbps() == 192;
  }

  /** Piece `j` of the bytes is a frame of kind `k`. */
  ghost predicate Piece(b: seq<Byte>, j: nat, k: Kind) {
    SIZE * (j + 1) <= |b| && forall r: nat :: r < SIZE ==> ByteIs(b, j, r, k)
  }

  predicate ByteIs(b: seq<Byte>, j: nat, r: nat, k: Kind) { SIZE * j + r < |b| && b[SIZE * j + r] == ByteOf(k, r) }

  lemma Inside(j: nat, r: nat)
    requires r < SIZE
    ensures (SIZE * j + r) / SIZE == j && (SIZE * j + r) % SIZE == r
  {}

  lemma PieceIs(ks: seq<Kind>, cut: nat, j: nat)
    requires j < |ks|
    ensures Piece(Bytes(ks, cut), j, ks[j])
  {
    forall r: nat | r < SIZE ensures ByteIs(Bytes(ks, cut), j, r, ks[j]) { Inside(j, r); }
  }

  ghost predicate HeadAt(b: seq<Byte>, j: nat) { HeaderAt(b, SIZE * j) && At(b, SIZE * j) == Head() }

  lemma PieceHasHead(b: seq<Byte>, j: nat, k: Kind)
    requires Piece(b, j, k)
    ensures HeadAt(b, j)
  {
    hide Header.Valid;
    HeadMeans();
    assert ByteIs(b, j, 0, k) && ByteIs(b, j, 1, k) && ByteIs(b, j, 2, k) && ByteIs(b, j, 3, k);
  }

  /** A header lies at the start of each frame, the one cut short included. */
  lemma HeadersAt(ks: seq<Kind>, cut: nat, j: nat)
    requires CutIsShort(cut) && (j < |ks| || (j == |ks| && cut > 0))
    ensures HeadAt(Bytes(ks, cut), j)
  {
    hide Bytes, Header.Valid;
    HeadMeans();
    ByteAt(ks, cut, j, 0);
    ByteAt(ks, cut, j, 1);
    ByteAt(ks, cut, j, 2);
    ByteAt(ks, cut, j, 3);
  }

  lemma ByteAt(ks: seq<Kind>, cut: nat, j: nat, r: nat)
    requires r < HDR_SIZE && SIZE * j + r < |Bytes(ks, cut)|
    ensures Bytes(ks, cut)[SIZE * j + r] == ByteOf(Plain, r)
  {
    Inside(j, r);
  }

  /** Nowhere else in the last piece. */
  lemma NoHeaderBehind(ks: seq<Kind>, cut: nat, i: nat)
    requires CutIsShort(cut) && SIZE * |ks| < i && i + HDR_SIZE <= |Bytes(ks, cut)|
    ensures !HeaderAt(Bytes(ks, cut), i)
  {
    assert i / SIZE == |ks| && i % SIZE == i - SIZE * |ks|;
  }

  // ---------------------------------------------------------------- finding the frames

  /** The header lies at the starts of the pieces `first` to `last`. */
  ghost predicate HeadsIn(b: seq<Byte>, first: nat, last: nat) {
    forall j: nat :: first <= j <= last ==> HeadAt(b, j)
  }

  lemma StreamHasHeads(ks: seq<Kind>, cut: nat)
    requires CutIsShort(cut) && |ks| > 0
    ensures HeadsIn(Bytes(ks, cut), 0, if cut > 0 then |ks| else |ks| - 1)
  {
    hide Bytes, HeadAt;
    forall j: nat | j <= if cut > 0 then |ks| else |ks| - 1 ensures HeadAt(Bytes(ks, cut), j) {
      HeadersAt(ks, cut, j);
    }
  }

  lemma SizeOfFrame(b: seq<Byte>, j: nat, ff: nat)
    requires HeadAt(b, j)
    ensures FrameSize(b, SIZE * j, ff) == SIZE
  {
    hide Header.Valid, Header.FrameBytes;
    HeadMeans();
  }

  /** The frames `first` to `last`. */
  function RowOf(first: nat, last: nat): (fs: seq<FrameRef>)
    requires first <= last
    ensures |fs| == last - first + 1 && forall j :: 0 <= j < |fs| ==> fs[j] == Frame(first + j)
  {
    seq(last - first + 1, j requires j >= 0 => Frame(first + j))
  }

  lemma RowLies(b: seq<Byte>, first: nat, last: nat)
    requires first <= last && HeadsIn(b, first, last) && RowEnds(b, last)
    ensures Row(b, RowOf(first, last), 0)
  {
    hide Header.Valid, Header.FrameBytes, HeadAt, RowOf, FrameSize;
    var fs := RowOf(first, last);
    forall j: nat | j < |fs| ensures Lies(b, fs, 0, j) {
      FrameLies(b, first, last, j);
    }
    assert fs[|fs| - 1] == Frame(last);
    assert !Follows(b, SIZE * last, SIZE * (last + 1));
  }

  lemma FrameLies(b: seq<Byte>, first: nat, last: nat, j: nat)
    requires first <= last && first + j <= last && HeadsIn(b, first, last)
    ensures Lies(b, RowOf(first, last), 0, j)
  {
    hide Header.Valid, Header.FrameBytes, Header.Compare, RowOf, FrameSize;
    HeadMeans();
    var (fs, p) := (RowOf(first, last), first + j);
    assert HeadAt(b, p) && fs[j] == Frame(p);
    SizeOfFrame(b, p, 0);
    if p < last {
      var q := p + 1;
      assert HeadAt(b, q) && fs[j + 1] == Frame(q);
    }
  }

  /** The row ends where the bytes do, or something else comes behind it. */
  ghost predicate RowEnds(b: seq<Byte>, last: nat) {
    SIZE * (last + 1) + HDR_SIZE <= |b| ==> !HeaderAt(b, SIZE * (last + 1))
  }

  /** Which frames of a row a search takes. */
  lemma FrameAccepted(b: seq<Byte>, first: nat, last: nat, lo: nat, j: nat)
    requires first <= j <= last && HeadsIn(b, first, last) && RowEnds(b, last) && SIZE * (j + 1) <= |b|
    ensures HeadAt(b, j)
    ensures var long := j + (if SIZE * (last + 1) + HDR_SIZE <= |b| then MAX_FRAME_SYNC_MATCHES else 1) <= last;
      Accepted(b, lo, SIZE * j) ==
        (if long || (SIZE * j == lo && SIZE * (j + 1) == |b|) then Some(Frame(j)) else None) &&
      (Found(b, Frame(j)) <==> long || SIZE * (j + 1) == |b|)
  {
    hide Accepted, Found, Row, RowOf, Header.Valid, Header.IsFreeFormat;
    HeadMeans();
    RowLies(b, first, last);
    assert HeadAt(b, j) && RowOf(first, last)[j - first] == Frame(j) && RowOf(first, last)[last - first] == Frame(last);
    RowIsFound(b, RowOf(first, last), lo, j - first);
  }

  /** To which of them a decoder continues that has taken the one before. */
  lemma FrameContinued(b: seq<Byte>, first: nat, last: nat, j: nat, r: seq<Byte>)
    requires first < j <= last && HeadsIn(b, first, last) && RowEnds(b, last) && SIZE * (j + 1) <= |b|
    ensures Continuation(Ready(Head(), 0, r), b, SIZE * j)
         == if j < last || SIZE * (j + 1) == |b| then Some(Frame(j)) else None
  {
    hide Continuation, Row, RowOf, Header.Valid, Header.IsFreeFormat;
    HeadMeans();
    RowLies(b, first, last);
    assert HeadAt(b, j) && HeadAt(b, j - 1) && RowOf(first, last)[j - first] == Frame(j);
    assert RowOf(first, last)[j - first - 1] == Frame(j - 1);
    RowIsContinued(b, RowOf(first, last), j - first, r);
  }

  /** A search passes what it does not take. */
  lemma {:induction false} PassesBy(b: seq<Byte>, lo: nat, i: nat, k: nat)
    requires i <= k && NoFrameIn(b, lo, i, k)
    ensures Find(b, lo, i) == Find(b, lo, k)
    decreases k - i
  {
    hide Accepted, HeaderAt;
    if i < k && InScan(b, i) {
      PassesBy(b, lo, i + 1, k);
    } else if i < k {
      FindNothing(b, lo, k);
    }
  }

  lemma FindNothing(b: seq<Byte>, lo: nat, k: nat)
    ensures !InScan(b, k) ==> Find(b, lo, k).None?
  {}

  // ---------------------------------------------------------------- streams without gaps

  lemma LastHead(ks: seq<Kind>, cut: nat)
    requires CutIsShort(cut) && |ks| > 0
    ensures var (b, last) := (Bytes(ks, cut), if cut > 0 then |ks| else |ks| - 1);
      HeadsIn(b, 0, last) && RowEnds(b, last) && SIZE * (last + 1) + HDR_SIZE > |b|
  {
    hide Bytes, HeadAt;
    StreamHasHeads(ks, cut);
  }

  lemma FrameIsFound(ks: seq<Kind>, cut: nat, j: nat)
    requires CutIsShort(cut) && j < |ks|
    ensures Found(Bytes(ks, cut), Frame(j))
  {
    hide Bytes, Found, HeadAt, HeadsIn, RowEnds;
    LastHead(ks, cut);
    FrameAccepted(Bytes(ks, cut), 0, if cut > 0 then |ks| else |ks| - 1, 0, j);
  }

  /** Nothing is found in the last piece. */
  lemma NothingInCut(ks: seq<Kind>, cut: nat)
    requires HDR_SIZE <= cut < SIZE
    ensures Find(Bytes(ks, cut), SIZE * |ks|, SIZE * |ks|).None?
  {
    hide Bytes, Header.Valid, Header.FrameBytes, Chained;
    HeadMeans();
    var b, e := Bytes(ks, cut), SIZE * |ks|;
    HeadersAt(ks, cut, |ks|);
    forall p: nat | e <= p < |b| && HeaderAt(b, p) && InScan(b, p) ensures Accepted(b, e, p).None? {
      if e < p { NoHeaderBehind(ks, cut, p); }
    }
    PassesBy(b, e, e, |b|);
    FindNothing(b, e, |b|);
  }

  lemma StreamIsTaken(ks: seq<Kind>, cut: nat, l12: Layer12)
    requires CutIsShort(cut)
    ensures Taken(Bytes(ks, cut), FramesOf(|ks|), l12)
  {
    hide Bytes, Found, TakenAt;
    if |ks| > 0 { FrameIsFound(ks, cut, 0); }
    assert Indexed(Bytes(ks, cut), FramesOf(|ks|));
    FirstTaken(Bytes(ks, cut), FramesOf(|ks|), l12);
    forall j | 0 < j <= |ks| ensures TakenAt(Bytes(ks, cut), FramesOf(|ks|), l12, j) {
      if j < |ks| { FrameIsTaken(ks, cut, l12, j); } else { NothingIsTaken(ks, cut, l12); }
    }
  }

  lemma BehindFrame(b: seq<Byte>, j: nat, l12: Layer12)
    requires HeadAt(b, j) && SIZE * (j + 1) <= |b|
    ensures Behind(b, Frame(j), l12) == Fresh || Behind(b, Frame(j), l12) == Ready(Head(), 0, [])
  {
    hide Header.Valid, UnitAt;
  }

  /** Whether the decoder behind it is fresh or not, it takes a frame that is both found and continued to. */
  lemma TakesEither(b: seq<Byte>, st: State, f: FrameRef)
    requires st == Fresh || st == Ready(Head(), 0, [])
    requires Found(b, f) && Continuation(Ready(Head(), 0, []), b, f.offset) == Some(f)
    ensures f.offset <= |b| && Located(st, b, f.offset) == Some(f)
  {
    hide Find, FrameSize, Header.Compare, Header.Valid;
  }

  lemma FrameIsTaken(ks: seq<Kind>, cut: nat, l12: Layer12, j: nat)
    requires CutIsShort(cut) && 0 < j < |ks| && Indexed(Bytes(ks, cut), FramesOf(|ks|))
    ensures TakenAt(Bytes(ks, cut), FramesOf(|ks|), l12, j)
  {
    hide Bytes, Located, Continuation, HeadAt, HeadsIn, RowEnds, Behind, Indexed, Found;
    var b := Bytes(ks, cut);
    LastHead(ks, cut);
    HeadersAt(ks, cut, j - 1);
    BehindFrame(b, j - 1, l12);
    FrameIsFound(ks, cut, j);
    FrameContinued(b, 0, if cut > 0 then |ks| else |ks| - 1, j, []);
    TakesEither(b, Behind(b, Frame(j - 1), l12), Frame(j));
    assert FramesOf(|ks|)[j - 1] == Frame(j - 1) && FramesOf(|ks|)[j] == Frame(j) && Frame(j - 1).End() == SIZE * j;
  }

  lemma NothingBehindLast(ks: seq<Kind>, cut: nat, l12: Layer12)
    requires CutIsShort(cut) && |ks| > 0
    ensures SIZE * |ks| <= |Bytes(ks, cut)|
    ensures Located(Behind(Bytes(ks, cut), Frame(|ks| - 1), l12), Bytes(ks, cut), SIZE * |ks|).None?
  {
    hide Bytes, Find, Located, HeadAt, Header.Valid, Header.FrameBytes, Behind, FrameSize;
    var b, e := Bytes(ks, cut), SIZE * |ks|;
    if cut > 0 {
      HeadersAt(ks, cut, |ks|);
      HeadIs(b, |ks|);
      SizeOfFrame(b, |ks|, 0);
      NothingInCut(ks, cut);
      CutFrameIsLast(b, Frame(|ks| - 1), l12);
    } else {
      NothingAtEnd(b, Behind(b, Frame(|ks| - 1), l12));
    }
  }

  lemma HeadIs(b: seq<Byte>, j: nat)
    requires HeadAt(b, j)
    ensures HeaderAt(b, SIZE * j) && At(b, SIZE * j) == Head()
  {}

  lemma NothingIsTaken(ks: seq<Kind>, cut: nat, l12: Layer12)
    requires CutIsShort(cut) && |ks| > 0 && Indexed(Bytes(ks, cut), FramesOf(|ks|))
    ensures TakenAt(Bytes(ks, cut), FramesOf(|ks|), l12, |ks|)
  {
    hide Bytes, Located, Behind, Indexed;
    NothingBehindLast(ks, cut, l12);
    assert FramesOf(|ks|)[|ks| - 1] == Frame(|ks| - 1);
  }

  // ---------------------------------------------------------------- what the frames hold

  /** The reservoir's view of a frame. */
  function UnitFor(k: Kind): Unit {
    if k == Broken then Corrupt
    else Usable(L3Frame(if k == Refers then 1 else 0, if k == Refers then 4088 else 0, Silence()))
  }

  function Silence(): (data: seq<Byte>)
    ensures |data| == 555
  {
    seq(555, _ => 0)
  }

  function BodyOf(k: Kind): (body: seq<Byte>)
    ensures |body| == 572
  {
    [0, Second(k), Third(k), Fourth(k), Fifth(k)] + seq(567, _ => 0)
  }

  /** The bits 30 and 31 and all from 32 on are 0. */
  lemma BodyBitIsZero(k: Kind, p: nat)
    requires k != Broken && 30 <= p < 8 * 572
    ensures BitAt(BodyOf(k), p) == 0
  {
    if p < 32 {
      assert Shr(0xE0, 0) == 0xE0 && Shr(0xE0, 1) == Shr(0x70, 0) == 0x70;
    }
    ZeroShifts(7 - p % 8);
  }

  lemma BodyFieldIsZero(k: Kind, pos: nat, n: nat)
    requires k != Broken && 30 <= pos && pos + n <= 8 * 572
    ensures BitsAt(BodyOf(k), pos, n) == 0
  {
    hide BitAt, BodyOf;
    forall p: nat | pos <= p < pos + n ensures BitAt(BodyOf(k), p) == 0 { BodyBitIsZero(k, p); }
    ZeroBits(BodyOf(k), pos, n);
  }

  /** The value of two neighbouring bytes. */
  lemma TwoBytes(buf: seq<Byte>, k: nat)
    requires k + 1 < |buf|
    ensures var (high: nat, low: nat) := (buf[k], buf[k + 1]); BitsAt(buf, 8 * k, 16) == 256 * high + low
  {
    hide BitsAt, BitAt;
    TrailingBits(buf, k, 8);
    NextByte(buf, k, 1);
  }

  /** main_data_begin, nine bits. */
  lemma BeginField(k: Kind)
    ensures BitsAt(BodyOf(k), 0, 9) == if k == Refers then 1 else 0
  {
    hide BitsAt, BitAt;
    TwoBytes(BodyOf(k), 0);
    BitsSplit(BodyOf(k), 0, 9, 7);
    ZeroShifts(7);
    ShiftedRight();
  }

  lemma ShiftedRight()
    ensures Shr(128, 7) == 1 && Shr(16352, 2) == 4088 && Shr(1022, 1) == 511
  {
    assert Shr(128, 7) == Shr(64, 6) == Shr(32, 5) == Shr(16, 4) == Shr(8, 3) == Shr(4, 2) == Shr(2, 1) == Shr(1, 0);
    assert Shr(16352, 2) == Shr(8176, 1) == Shr(4088, 0);
    assert Shr(1022, 1) == Shr(511, 0);
  }

  lemma SmallEnough()
    ensures Low(4088, 12) == 4088 && Low(0, 12) == 0 && Low(511, 9) == 511
  {
    ShlByByte(1);
    assert Shl(1, 8) == 256 && Shl(1, 9) == 512 && Shl(1, 10) == 1024 && Shl(1, 11) == 2048 && Shl(1, 12) == 4096;
    LowOfSmall(4088, 12);
    LowOfSmall(0, 12);
    LowOfSmall(511, 9);
  }

  /** The length of the first granule, twelve bits. */
  lemma LengthField(k: Kind)
    requires k != Broken
    ensures BitsAt(BodyOf(k), 18, 12) == if k == Refers then 4088 else 0
  {
    hide BitsAt, BitAt;
    TwoBytes(BodyOf(k), 2);
    BitsSplit(BodyOf(k), 16, 14, 2);
    BitsSplit(BodyOf(k), 16, 2, 12);
    ZeroShifts(2);
    ShiftedRight();
    SmallEnough();
  }

  /** big_values of the first granule, nine bits: more than the 288 that are legal. */
  lemma BigField()
    ensures BitsAt(BodyOf(Broken), 30, 9) == 511
  {
    hide BitsAt, BitAt;
    TwoBytes(BodyOf(Broken), 3);
    BitsSplit(BodyOf(Broken), 24, 15, 1);
    BitsSplit(BodyOf(Broken), 24, 6, 9);
    ShiftedRight();
    SmallEnough();
  }

  predicate IsBlockOf(b: Block, k: Kind) { b.h == Head() && b.buf == BodyOf(k) && b.limit == 8 * 572 && b.start == 0 }

  lemma BlockIsOk(b: Block, k: Kind)
    requires IsBlockOf(b, k) && k != Broken
    ensures b.Ok() && b.End() == 136 && b.Granules() == 2
    ensures b.MainDataBegin() == (if k == Refers then 1 else 0) && b.PartSum(2) == if k == Refers then 4088 else 0
  {
    hide BitsAt, BodyOf;
    HeadMeans();
    assert b.GranuleStart(0) == 18 && b.GranuleStart(1) == 77 && b.WindowStart(0) == 51 && b.WindowStart(1) == 110;
    BeginField(k);
    LengthField(k);
    BodyFieldIsZero(k, 30, 9);
    BodyFieldIsZero(k, 51, 1);
    BodyFieldIsZero(k, 77, 12);
    BodyFieldIsZero(k, 89, 9);
    BodyFieldIsZero(k, 110, 1);
    assert b.PartSum(1) == b.PartSum(0) + b.Part23(0) && b.PartSum(2) == b.PartSum(1) + b.Part23(1);
  }

  lemma BlockIsBroken(b: Block)
    requires IsBlockOf(b, Broken)
    ensures !b.Ok()
  {
    hide BitsAt, BodyOf;
    HeadMeans();
    BigField();
    assert b.Granules() == 2 && b.GranuleStart(0) == 18 && !b.GranuleOk(0);
  }

  lemma BodyIs(b: seq<Byte>, j: nat, k: Kind)
    requires Piece(b, j, k)
    ensures Frame(j).End() <= |b| && Body(b, Frame(j)) == BodyOf(k)
  {
    var body := Body(b, Frame(j));
    forall r | 0 <= r < 572 ensures body[r] == BodyOf(k)[r] {
      var q: nat := HDR_SIZE + r;
      assert ByteIs(b, j, q, k);
    }
  }

  lemma UnitIs(b: seq<Byte>, l12: Layer12, j: nat, k: Kind)
    requires Piece(b, j, k)
    ensures Frame(j).End() <= |b| && UnitAt(b, Frame(j), l12) == UnitFor(k)
  {
    hide Piece, Field, Block.Ok, Block.End, Block.MainDataBegin, Block.PartSum, Block.Granules, Header.IsCrc, BodyOf,
      Body;
    HeadMeans();
    PieceHasHead(b, j, k);
    BodyIs(b, j, k);
    var s := SideBlock(b, Frame(j));
    if k == Broken {
      BlockIsBroken(s);
    } else {
      BlockIsOk(s, k);
      RestIsSilent(k);
    }
  }

  lemma RestIsSilent(k: Kind)
    ensures BodyOf(k)[17..] == Silence()
  {}

  lemma FillOfFrame(b: seq<Byte>, j: nat, k: Kind)
    requires Piece(b, j, k) && k != Broken
    ensures Frame(j).End() <= |b| && Frame(j).offset + HDR_SIZE <= |b|
    ensures FillBytes(b, Frame(j)) == 555 && !SideInfoFails(b, Frame(j))
  {
    hide Piece, Field, Block.Ok, Block.MainDataBegin, Block.PartSum, Block.Granules, Header.IsCrc, BodyOf, Body;
    HeadMeans();
    PieceHasHead(b, j, k);
    BodyIs(b, j, k);
    BlockIsOk(SideBlock(b, Frame(j)), k);
  }

  // ---------------------------------------------------------------- decoding them

  /** Signal processing that yields silence. */
  function Mute(): Dsp<int> {
    Dsp(0, (d: int, frame: seq<Byte>, main: seq<Byte>) => 0,
        (d: int, frame: seq<Byte>, main: seq<Byte>) => seq(1152, _ => 0))
  }

  const KIND: Info := Info(1, 48000, 3)

  /** A frame of these streams. */
  ghost predicate IsFrame(b: seq<Byte>, f: FrameRef) {
    exists j: nat :: f == Frame(j) && HeadAt(b, j)
  }

  /** Any stream of such frames is of one kind. */
  lemma FramesAreUniform(s: Setting<int>)
    requires Taken(s.b, s.fs, s.l12) && s.dsp == Mute() && forall j :: 0 <= j < |s.fs| ==> IsFrame(s.b, s.fs[j])
    ensures Uniform(s, KIND) && TwoFrameMemory(s.dsp)
    ensures forall j: nat :: j < |s.fs| ==> Count(s, j) == 1152
  {
    hide Taken, HeadAt, Header.FrameSamples, Header.SampleRateHz, Header.Valid;
    HeadMeans();
    TakenIsIndexed(s.b, s.fs, s.l12);
    forall j: nat | j < |s.fs|
      ensures OfKind(s.b, s.fs[j], KIND) && Nominal(s.b, s.fs[j]) == 1152 && s.fs[j].freeFormat == 0
    {
      FrameIsOfKind(s.b, s.fs[j]);
    }
  }

  lemma FrameIsOfKind(b: seq<Byte>, f: FrameRef)
    requires IsFrame(b, f)
    ensures f.offset + HDR_SIZE <= |b| && OfKind(b, f, KIND) && Nominal(b, f) == 1152 && f.freeFormat == 0
  {
    hide Header.FrameSamples, Header.SampleRateHz, Header.Valid;
    HeadMeans();
  }

  lemma {:induction false} SamplesAre(s: Setting<int>, n: nat)
    requires Taken(s.b, s.fs, s.l12) && n <= |s.fs| && forall j: nat :: j < |s.fs| ==> Count(s, j) == 1152
    ensures Samples(s, n) == 1152 * n
  {
    hide Taken, Samples, Count;
    NoSamples(s);
    if n > 0 {
      SamplesAre(s, n - 1);
      SamplesStep(s, n - 1);
    }
  }

  /** The places 0 to n - 1. */
  function Places(n: nat): seq<nat> { seq(n, k requires k >= 0 => k) }

  /** A stream without gaps. */
  ghost function On(ks: seq<Kind>, cut: nat, l12: Layer12): Setting<int> {
    Setting(Bytes(ks, cut), FramesOf(|ks|), Places(|ks|), l12, Mute())
  }

  lemma StreamIsUniform(ks: seq<Kind>, cut: nat, l12: Layer12)
    requires CutIsShort(cut)
    ensures Taken(Bytes(ks, cut), FramesOf(|ks|), l12)
    ensures Uniform(On(ks, cut, l12), KIND) && TwoFrameMemory(Mute())
    ensures forall j: nat :: j < |ks| ==> Count(On(ks, cut, l12), j) == 1152
  {
    hide Bytes, Taken, HeadAt, Count;
    StreamIsTaken(ks, cut, l12);
    forall j | 0 <= j < |ks| ensures IsFrame(Bytes(ks, cut), Frame(j)) { HeadersAt(ks, cut, j); }
    FramesAreUniform(On(ks, cut, l12));
  }

  lemma TotalOfFrames(ks: seq<Kind>, cut: nat, l12: Layer12, a: nat, t: nat)
    requires CutIsShort(cut) && a <= t <= |ks|
    ensures Taken(Bytes(ks, cut), FramesOf(|ks|), l12)
    ensures Total(On(ks, cut, l12), a, t) == 1152 * (t - a) == Samples(On(ks, cut, l12), t - a)
  {
    hide Bytes, Taken, Uniform, TwoFrameMemory, Count, Samples, Total;
    StreamIsUniform(ks, cut, l12);
    SamplesAre(On(ks, cut, l12), t - a);
    TotalIsSamples(On(ks, cut, l12), KIND, a, t);
  }

  /** The units of these streams. */
  ghost predicate Holds(us: seq<Unit>, ks: seq<Kind>) {
    |us| == |ks| && forall j :: 0 <= j < |ks| ==> us[j] == UnitFor(ks[j])
  }

  lemma UnitsHold(ks: seq<Kind>, cut: nat, l12: Layer12)
    requires CutIsShort(cut)
    ensures Taken(Bytes(ks, cut), FramesOf(|ks|), l12) && Holds(UnitsOf(On(ks, cut, l12)), ks)
  {
    hide Bytes, Taken, UnitAt, UnitFor, UnitIn;
    StreamIsTaken(ks, cut, l12);
    forall j | 0 <= j < |ks| ensures UnitsOf(On(ks, cut, l12))[j] == UnitFor(ks[j]) {
      UnitsAre(Bytes(ks, cut), FramesOf(|ks|), l12, j);
      UnitInStream(ks, cut, l12, j);
    }
  }

  lemma UnitInStream(ks: seq<Kind>, cut: nat, l12: Layer12, j: nat)
    requires CutIsShort(cut) && j < |ks| && Indexed(Bytes(ks, cut), FramesOf(|ks|))
    ensures UnitIn(Bytes(ks, cut), FramesOf(|ks|), l12, j) == UnitFor(ks[j])
  {
    hide Bytes, UnitAt, Piece, HeadAt, HeadsIn, RowEnds, Continuation, Header.Valid;
    var b := Bytes(ks, cut);
    PieceIs(ks, cut, j);
    PieceHasHead(b, j, ks[j]);
    UnitIs(b, l12, j, ks[j]);
    HeadIs(b, j);
    if j + 1 < |ks| {
      LastHead(ks, cut);
      FrameContinued(b, 0, if cut > 0 then |ks| else |ks| - 1, j + 1, []);
    }
  }

  /** The bytes in the reservoir before frame `k` when decoding starts at frame `i`. */
  function Left(ks: seq<Kind>, i: nat, k: nat): nat
    requires i <= k <= |ks|
  {
    if k == i then 0 else
    match ks[k - 1]
    case Broken => 0
    case Plain => 511
    case Refers => if Left(ks, i, k - 1) > 0 then 45 else 511
  }

  predicate DecodesIn(ks: seq<Kind>, i: nat, k: nat)
    requires i <= k < |ks|
  {
    ks[k] == Plain || (ks[k] == Refers && Left(ks, i, k) > 0)
  }

  lemma LeftBy(r: seq<Byte>, k: Kind)
    requires |r| <= MAX_BITRESERVOIR_BYTES && k != Broken
    ensures UnitFor(k).frame.Valid()
    ensures |After(r, UnitFor(k).frame)| == if k == Refers && |r| > 0 then 45 else 511
    ensures Decodes(r, UnitFor(k).frame) <==> k == Plain || |r| > 0
  {}

  lemma UnitsValid(us: seq<Unit>, ks: seq<Kind>)
    requires Holds(us, ks)
    ensures ValidUnits(us)
  {
    hide After;
    forall k | 0 <= k < |us| && !us[k].Corrupt? ensures us[k].frame.Valid() { LeftBy([], ks[k]); }
  }

  lemma {:induction false} RunHolds(us: seq<Unit>, ks: seq<Kind>, i: nat, k: nat)
    requires Holds(us, ks) && i <= k <= |ks|
    ensures ValidUnits(us) && |Run(us, i, k)| == Left(ks, i, k)
    ensures k < |ks| ==> (DecodesAt(us, i, k) <==> DecodesIn(ks, i, k))
    decreases k
  {
    UnitsValid(us, ks);
    hide After, Decodes, UnitFor;
    BrokenOrNot(us, ks);
    if k > i {
      RunHolds(us, ks, i, k - 1);
      if ks[k - 1] != Broken { LeftBy(Run(us, i, k - 1), ks[k - 1]); }
    }
    if k < |ks| && ks[k] != Broken { LeftBy(Run(us, i, k), ks[k]); }
  }

  lemma BrokenOrNot(us: seq<Unit>, ks: seq<Kind>)
    requires Holds(us, ks)
    ensures forall k :: 0 <= k < |us| ==> !us[k].Final? && (us[k].Corrupt? <==> ks[k] == Broken)
  {}

  /** Reading from the start, exactly the frames from `f` on decode. */
  predicate StartsWith(ks: seq<Kind>, f: nat) {
    f <= |ks| && forall k :: 0 <= k < |ks| ==> (DecodesIn(ks, 0, k) <==> f <= k)
  }

  lemma DecodesFromFirst(us: seq<Unit>, ks: seq<Kind>, f: nat)
    requires Holds(us, ks) && StartsWith(ks, f)
    ensures ValidUnits(us) && DecodesFrom(us, f)
  {
    hide Run, After, UnitFor, Decodes, Left;
    UnitsValid(us, ks);
    forall k: nat | k < |us| ensures DecodesAt(us, 0, k) <==> f <= k {
      RunHolds(us, ks, 0, k);
    }
  }

  /** The hypotheses of the seek theorems hold on all these streams, those that end in a frame cut short included. */
  lemma HypothesesHold(ks: seq<Kind>, cut: nat, l12: Layer12, f: nat)
    requires CutIsShort(cut) && StartsWith(ks, f) && |ks| > 0
    ensures Readable(On(ks, cut, l12), KIND, f) && Complete(On(ks, cut, l12)) &&
      Taken(Bytes(ks, cut), FramesOf(|ks|), l12)
    ensures DecodesFrom(UnitsOf(On(ks, cut, l12)), f) && Uniform(On(ks, cut, l12), KIND)
    ensures Plays(On(ks, cut, l12), f) && Lists(On(ks, cut, l12), f) && Placed(On(ks, cut, l12))
  {
    hide Bytes, Taken, Uniform, TwoFrameMemory, Units, StartsWith, DecodesFrom, Found;
    StreamIsUniform(ks, cut, l12);
    UnitsHold(ks, cut, l12);
    DecodesFromFirst(UnitsOf(On(ks, cut, l12)), ks, f);
    StartIsInside(ks, f);
    forall k | 0 <= k < |ks| ensures Found(Bytes(ks, cut), Frame(k)) { FrameIsFound(ks, cut, k); }
  }

  lemma StartIsInside(ks: seq<Kind>, f: nat)
    requires StartsWith(ks, f)
    ensures f <= |ks|
  {}

  // ---------------------------------------------------------------- a restart

  /** Frames that refer back, after a plain one. */
  function Six(): (ks: seq<Kind>)
    ensures StartsWith(ks, 0)
  {
    [Plain, Refers, Refers, Refers, Refers, Refers]
  }

  lemma AllListed(ks: seq<Kind>, cut: nat, l12: Layer12)
    requires CutIsShort(cut)
    ensures Placed(On(ks, cut, l12)) && Listed(On(ks, cut, l12)) == FramesOf(|ks|)
    ensures Taken(Bytes(ks, cut), FramesOf(|ks|), l12) && Indexed(Bytes(ks, cut), FramesOf(|ks|))
  {
    hide Bytes, Found, Taken;
    StreamIsTaken(ks, cut, l12);
    TakenIsIndexed(Bytes(ks, cut), FramesOf(|ks|), l12);
    forall k | 0 <= k < |ks| ensures Found(Bytes(ks, cut), Frame(k)) { FrameIsFound(ks, cut, k); }
  }

  /** For a target from the fourth frame on decoding restarts three frames back when those hold 511 bytes each. */
  lemma RestartGoesBack(b: seq<Byte>, fs: seq<FrameRef>, t: nat)
    requires Indexed(b, fs) && 3 <= t < |fs| && FillBytes(b, fs[t - 3]) == 555 && !SideInfoFails(b, fs[t - 3])
    ensures RestartsAt(b, fs, 3, t, t - 3)
  {
    hide FillBytes, SideInfoFails;
    var (i, m) := (t - 3, t - 2);
    assert Fill(b, fs, m, m) == 0 && Fill(b, fs, i, m) == FillBytes(b, fs[i]) + Fill(b, fs, m, m);
  }

  /**
   * A seek into frame 5 of six: the restart at frame 2 fails on that frame, decodes from frame 3 on like the run from
   * the start, and all hypotheses of the seek theorem hold.
   */
  lemma RestartIsExercised(cut: nat, l12: Layer12, position: nat)
    requires CutIsShort(cut) && 5 * 1152 <= position < 6 * 1152
    ensures Readable(On(Six(), cut, l12), KIND, 0) && Taken(Bytes(Six(), cut), FramesOf(6), l12) &&
      Placed(On(Six(), cut, l12))
    ensures var s := On(Six(), cut, l12);
      var st, us := SourceOf(s).initial, UnitsOf(s);
      Chosen(s, KIND, 0, st, position) == (5, 2) && Reachable(s, KIND, st, position) && Own(s, st) &&
      DecodesFrom(us, 0) && !DecodesAt(us, 2, 2) && (forall k :: 3 <= k < 6 ==> DecodesAt(us, 2, k)) &&
      Run(us, 2, 3) != Run(us, 0, 3)
  {
    hide Bytes, Taken, Readable, Uniform, TwoFrameMemory, Units, Run, IndexBy, SourceOf, Own, DecodesFrom, Chosen,
      Complete, Reachable, Plays, Lists, Counted, DecodesAt;
    var s := On(Six(), cut, l12);
    HypothesesHold(Six(), cut, l12, 0);
    UnitsHold(Six(), cut, l12);
    StartIsFresh(s);
    NearIsReachable(s, KIND, 0, SourceOf(s).initial, position);
    SixthIsChosen(cut, l12, position);
    RestartRuns(UnitsOf(s));
  }

  lemma SixthIsChosen(cut: nat, l12: Layer12, position: nat)
    requires CutIsShort(cut) && 5 * 1152 <= position < 6 * 1152 && Readable(On(Six(), cut, l12), KIND, 0)
    ensures Chosen(On(Six(), cut, l12), KIND, 0, SourceOf(On(Six(), cut, l12)).initial, position) == (5, 2)
  {
    hide *;
    var s := On(Six(), cut, l12);
    var st := SourceOf(s).initial;
    ReadableMeans(s, KIND, 0);
    AllListed(Six(), cut, l12);
    StartIsFresh(s);
    StreamIsUniform(Six(), cut, l12);
    SixFrames(cut, l12);
    IndexIsEven(s, 0, st, 5);
    IsLastTarget(IndexBy(s, st), position);
    ChosenIs(s, KIND, 0, st, position, 5, 2);
  }

  lemma SixFrames(cut: nat, l12: Layer12)
    requires CutIsShort(cut)
    ensures var s := On(Six(), cut, l12);
      s.b == Bytes(Six(), cut) && s.fs == FramesOf(6) && |s.fs| == |s.ix| == 6 && |Six()| == 6 && s.l12 == l12 &&
        KIND.layer == 3
    ensures Indexed(Bytes(Six(), cut), FramesOf(6)) && RestartsAt(Bytes(Six(), cut), FramesOf(6), KIND.layer, 5, 2)
  {
    hide Bytes, Taken, Found, RestartsAt, FillBytes, SideInfoFails;
    AllListed(Six(), cut, l12);
    PieceIs(Six(), cut, 2);
    FillOfFrame(Bytes(Six(), cut), 2, Refers);
    RestartGoesBack(Bytes(Six(), cut), FramesOf(6), 5);
  }

  lemma IsLastTarget(index: seq<Entry>, position: nat)
    requires |index| > 0 && index[|index| - 1].sample <= position
    ensures IsTarget(index, position, |index| - 1)
  {}

  /** When the first frame decodes, the index counts 1152 samples for each frame it lists. */
  lemma IndexIsEven(s: Setting<int>, f: nat, st: Full<int>, t: nat)
    requires Uniform(s, KIND) && Plays(s, 0) && Lists(s, f) && |s.fs| > 0 && Own(s, st)
    requires forall j: nat :: j < |s.fs| ==> Count(s, j) == 1152
    requires Taken(s.b, s.fs, s.l12) && Placed(s) && t < |s.ix|
    ensures |IndexBy(s, st)| == |s.ix| && IndexBy(s, st)[t].sample == 1152 * t && Counted(s, st) == 0
  {
    hide Uniform, Taken, Found, Plays, Lists, Own, IndexBy, Counted, Samples, Count, ListedTotal;
    ListsPlaces(s, f);
    ListsLess(s, f);
    CountedInTime(s, KIND, 0, st);
    IndexCountsFrom(s, KIND, st);
    CountsAt(s, IndexBy(s, st), 0, t);
    ListedIsSamples(s, KIND, f, 0, t);
    SamplesAre(s, t);
  }

  lemma ListsLess(s: Setting<int>, f: nat)
    requires Lists(s, f)
    ensures Lists(s, 0)
  {
    hide Found;
  }

  lemma RestartRuns(us: seq<Unit>)
    requires Holds(us, Six())
    ensures ValidUnits(us) && !DecodesAt(us, 2, 2) && Run(us, 2, 3) != Run(us, 0, 3)
    ensures forall k :: 3 <= k < 6 ==> DecodesAt(us, 2, k)
  {
    hide Run, After, Decodes, UnitFor;
    UnitsValid(us, Six());
    RunHolds(us, Six(), 0, 3);
    RunHolds(us, Six(), 2, 3);
    forall k | 2 <= k < 6 ensures DecodesAt(us, 2, k) <==> DecodesIn(Six(), 2, k) { RunHolds(us, Six(), 2, k); }
    assert Left(Six(), 2, 2) == 0 && Left(Six(), 2, 3) == 511 && Left(Six(), 2, 4) == 45 && Left(Six(), 2, 5) == 45;
    assert Left(Six(), 0, 1) == 511 && Left(Six(), 0, 2) == 45 && Left(Six(), 0, 3) == 45;
  }

  // ---------------------------------------------------------------- what does not hold

  /**
   * A plain frame and one that refers back: after 555 bytes of main data a restart has 511 bytes left, the run from
   * the start 45.
   */
  lemma ReservoirsDiffer(ks: seq<Kind>, cut: nat, l12: Layer12)
    requires CutIsShort(cut) && |ks| >= 2 && ks[0] == Plain && ks[1] == Refers && StartsWith(ks, 0)
    ensures Taken(Bytes(ks, cut), FramesOf(|ks|), l12)
    ensures var us := UnitsOf(On(ks, cut, l12));
      DecodesFrom(us, 0) && Unbroken(us, 1, 2) && |Stream(us, 1, 2)| >= MAX_BITRESERVOIR_BYTES &&
      |Run(us, 0, 2)| == 45 && |Run(us, 1, 2)| == 511
  {
    hide Bytes, Taken, Readable, Uniform, Units, Run, Plays, Lists, Placed, Complete, DecodesFrom;
    HypothesesHold(ks, cut, l12, 0);
    UnitsHold(ks, cut, l12);
    var us := UnitsOf(On(ks, cut, l12));
    RunHolds(us, ks, 0, 2);
    RunHolds(us, ks, 1, 2);
    assert Left(ks, 0, 1) == 511 && Left(ks, 1, 1) == 0;
    BrokenOrNot(us, ks);
    assert Stream(us, 1, 2) == Stream(us, 1, 1) + us[1].frame.data;
  }

  /** A left-over reservoir makes a first frame that refers back decode. */
  lemma FirstDecodesAfterwards(ks: seq<Kind>, cut: nat, l12: Layer12, k: nat)
    requires CutIsShort(cut) && |ks| >= 2 && ks[0] == Refers && StartsWith(ks, 1) && 1 <= k <= |ks|
    ensures Taken(Bytes(ks, cut), FramesOf(|ks|), l12) && Placed(On(ks, cut, l12))
    ensures Own(On(ks, cut, l12), FullAt(On(ks, cut, l12), 0, k)) &&
      Counted(On(ks, cut, l12), FullAt(On(ks, cut, l12), 0, k)) == 0
  {
    hide Bytes, Taken, Readable, Uniform, Units, Plays, Lists, Complete, DecodesFrom, Run, SourceOf, FullDecode,
      Decode, UnitAt, After, Holds, Nominal, Found, FullAt, Own, StateOfRun, HeldAt;
    var s := On(ks, cut, l12);
    HypothesesHold(ks, cut, l12, 1);
    AllListed(ks, cut, l12);
    var st := FullAt(s, 0, k);
    RunStateIsOwn(s, KIND, k);
    HeldFromRun(ks, cut, l12, k);
    FullAtIs(s, k);
    FrameIsFound(ks, cut, 0);
    OwnOutcome(s, KIND, st, 0);
    OwnDecode(s, KIND, st, 0);
    PieceIs(ks, cut, 0);
    UnitIs(s.b, l12, 0, Refers);
    LeftBy(HeldAt(st.dec, s.b, 0), Refers);
    SourceDecodes(s, st, 0);
  }

  lemma FullAtIs(s: Setting<int>, k: nat)
    requires Taken(s.b, s.fs, s.l12) && k <= |s.fs|
    ensures FullAt(s, 0, k).dec == StateOfRun(s.b, s.fs, s.l12, 0, k)
  {
    hide Taken, StateOfRun;
  }

  lemma HeldFromRun(ks: seq<Kind>, cut: nat, l12: Layer12, k: nat)
    requires CutIsShort(cut) && |ks| >= 2 && StartsWith(ks, 1) && ks[0] == Refers && 1 <= k <= |ks|
    ensures Taken(Bytes(ks, cut), FramesOf(|ks|), l12)
    ensures var h := HeldAt(StateOfRun(Bytes(ks, cut), FramesOf(|ks|), l12, 0, k), Bytes(ks, cut), 0);
      0 < |h| <= MAX_BITRESERVOIR_BYTES
  {
    hide Bytes, Taken, Run, Header.Compare, Header.Valid, Header.FrameBytes, Continuation, UnitAt, After, HeadAt,
      UnitFor, Units;
    UnitsHold(ks, cut, l12);
    var us := UnitsOf(On(ks, cut, l12));
    HeadersAt(ks, cut, 0);
    HeadersAt(ks, cut, 1);
    HeadersAt(ks, cut, k - 1);
    HeadIs(Bytes(ks, cut), k - 1);
    BrokenOrNot(us, ks);
    RunHolds(us, ks, 0, k - 1);
    assert k > 1 ==> DecodesIn(ks, 0, k - 1);
    LeftBy(Run(us, 0, k - 1), ks[k - 1]);
    ContinuesAtStart(Bytes(ks, cut), After(Run(us, 0, k - 1), us[k - 1].frame));
  }

  lemma ContinuesAtStart(b: seq<Byte>, r: seq<Byte>)
    requires HeadAt(b, 0) && HeadAt(b, 1)
    ensures Continuation(Ready(Head(), 0, r), b, 0).Some?
  {
    hide Header.Compare, Header.Valid, Header.FrameBytes;
    HeadMeans();
  }

  /** What is counted and what is yielded when the first of the frames fails and the others decode. */
  lemma FirstFails(ks: seq<Kind>, cut: nat, l12: Layer12, st: Full<int>)
    requires CutIsShort(cut) && |ks| >= 2 && StartsWith(ks, 1) && Own(On(ks, cut, l12), st)
    ensures Readable(On(ks, cut, l12), KIND, 1) && Complete(On(ks, cut, l12)) && Placed(On(ks, cut, l12))
    ensures Taken(Bytes(ks, cut), FramesOf(|ks|), l12)
    ensures var s := On(ks, cut, l12);
      |Continuous(s, KIND)| == 1152 * (|ks| - 1) && Total(s, 0, 1) == 1152 &&
      (Counted(s, st) == 0 ==> Lost(s, KIND, 1, st) == 1152) && (Counted(s, st) == 1 ==> Lost(s, KIND, 1, st) == 0)
  {
    hide Bytes, Taken, Readable, Uniform, TwoFrameMemory, Plays, Lists, Placed, Own, Counted, Continuous, Total,
      Samples, Units, DecodesFrom, Complete;
    var s := On(ks, cut, l12);
    HypothesesHold(ks, cut, l12, 1);
    ContinuousLength(s, KIND, 1);
    TotalOfFrames(ks, cut, l12, 1, |ks|);
    TotalOfFrames(ks, cut, l12, 0, 1);
    TotalOfFrames(ks, cut, l12, 1, 1);
  }

  /**
   * When the first frame refers back, an index built on demand after any reading counts the samples of that frame,
   * which are never yielded from the start: it differs from the index of a scan, and without a start delay seeks with
   * it are early, while those with the index of a scan are exact.
   */
  lemma StaleIndexDiffers(ks: seq<Kind>, cut: nat, l12: Layer12, k: nat)
    requires CutIsShort(cut) && |ks| >= 2 && ks[0] == Refers && StartsWith(ks, 1) && 1 <= k <= |ks|
    ensures Readable(On(ks, cut, l12), KIND, 1) && Placed(On(ks, cut, l12)) &&
      Taken(Bytes(ks, cut), FramesOf(|ks|), l12)
    ensures var s := On(ks, cut, l12);
      var st, fresh_ := FullAt(s, 0, k), SourceOf(s).initial;
      Own(s, st) && Counted(s, st) == 0 && Counted(s, fresh_) == 1 && IndexBy(s, st) != IndexBy(s, fresh_) &&
      AllExact(s, KIND, 1, fresh_, 0) && !AllExact(s, KIND, 1, st, 0) && !OpeningAgrees(s, KIND, 1, st, 0)
  {
    hide Bytes, Taken, Readable, Uniform, TwoFrameMemory, Plays, Lists, Placed, Own, Counted, Continuous, Total,
      Samples, Units, DecodesFrom, Complete, SourceOf, FullAt, IndexBy, AllExact, OpeningAgrees, Lost;
    var s := On(ks, cut, l12);
    var st := StaleState(ks, cut, l12, k);
    FreshIndex(ks, cut, l12);
    FirstFails(ks, cut, l12, st);
    FirstFails(ks, cut, l12, SourceOf(s).initial);
    SeekIsExactIff(s, KIND, 1, st, 0);
    SeekIsExactIff(s, KIND, 1, SourceOf(s).initial, 0);
    OpenAgreesIff(s, KIND, 1, st, 0);
    IndexesDiffer(ks, cut, l12, st);
  }

  lemma StaleState(ks: seq<Kind>, cut: nat, l12: Layer12, k: nat) returns (st: Full<int>)
    requires CutIsShort(cut) && |ks| >= 2 && ks[0] == Refers && StartsWith(ks, 1) && 1 <= k <= |ks|
    ensures Taken(Bytes(ks, cut), FramesOf(|ks|), l12) && Placed(On(ks, cut, l12)) &&
      st == FullAt(On(ks, cut, l12), 0, k)
    ensures Own(On(ks, cut, l12), st) && Counted(On(ks, cut, l12), st) == 0
  {
    hide Bytes, Taken, Placed, Own, Counted, FullAt;
    FirstDecodesAfterwards(ks, cut, l12, k);
    st := FullAt(On(ks, cut, l12), 0, k);
  }

  lemma FreshIndex(ks: seq<Kind>, cut: nat, l12: Layer12)
    requires CutIsShort(cut) && |ks| >= 2 && StartsWith(ks, 1)
    ensures Placed(On(ks, cut, l12))
    ensures var s := On(ks, cut, l12); Own(s, SourceOf(s).initial) && Counted(s, SourceOf(s).initial) == 1
  {
    hide Bytes, Taken, Readable, Uniform, Plays, Lists, Placed, Own, Counted, Units, DecodesFrom, SourceOf;
    HypothesesHold(ks, cut, l12, 1);
    StartIsFresh(On(ks, cut, l12));
    FreshCounted(On(ks, cut, l12), KIND, 1);
  }

  lemma IndexesDiffer(ks: seq<Kind>, cut: nat, l12: Layer12, st: Full<int>)
    requires CutIsShort(cut) && |ks| >= 2 && StartsWith(ks, 1) && Placed(On(ks, cut, l12)) && Own(On(ks, cut, l12), st)
    requires Taken(Bytes(ks, cut), FramesOf(|ks|), l12) && Counted(On(ks, cut, l12), st) == 0
    ensures var s := On(ks, cut, l12); IndexBy(s, st) != IndexBy(s, SourceOf(s).initial)
  {
    hide Bytes, Taken, Readable, Uniform, Plays, Lists, Placed, Own, Counted, Units, DecodesFrom, SourceOf, IndexBy,
      ListedTotal, Samples, Count;
    var s := On(ks, cut, l12);
    HypothesesHold(ks, cut, l12, 1);
    FreshIndex(ks, cut, l12);
    IndexCounts(s, KIND, st, 1);
    IndexCounts(s, KIND, SourceOf(s).initial, 1);
    ListedIsSamples(s, KIND, 1, 0, 1);
    ListedIsSamples(s, KIND, 1, 1, 1);
    TotalOfFrames(ks, cut, l12, 0, 1);
    NoSamples(s);
  }

  /**
   * A start delay of at least as many samples as the frames have hides this: whatever is asked for lies behind the end.
   * And then reading on from the opening agrees with the seeks, too.
   */
  lemma DelayHidesStaleIndex(ks: seq<Kind>, cut: nat, l12: Layer12, k: nat, delay: nat)
    requires CutIsShort(cut) && |ks| >= 2 && ks[0] == Refers && StartsWith(ks, 1) && 1 <= k <= |ks| && delay < FURTHEST
    ensures Readable(On(ks, cut, l12), KIND, 1) && Placed(On(ks, cut, l12)) &&
      Taken(Bytes(ks, cut), FramesOf(|ks|), l12)
    ensures var s := On(ks, cut, l12);
      var st := FullAt(s, 0, k);
      Counted(s, st) != 1 && (AllExact(s, KIND, 1, st, delay) <==> delay >= 1152 * |ks|) &&
      (OpeningAgrees(s, KIND, 1, st, delay) <==> delay >= 1152)
  {
    hide Bytes, Taken, Readable, Uniform, TwoFrameMemory, Plays, Lists, Placed, Own, Counted, Continuous, Total,
      Samples, Units, DecodesFrom, Complete, SourceOf, FullAt, IndexBy, AllExact, OpeningAgrees, Lost;
    var s := On(ks, cut, l12);
    var st := StaleState(ks, cut, l12, k);
    FirstFails(ks, cut, l12, st);
    SeekIsExactIff(s, KIND, 1, st, delay);
    OpenAgreesIff(s, KIND, 1, st, delay);
  }

  /**
   * When the first frame refers back and a tag announces a delay, reading on from the opening and reading after a seek
   * with the index of a scan are not the same: the failing frame uses up the delay.
   */
  lemma OpeningDiffers(ks: seq<Kind>, cut: nat, l12: Layer12, delay: nat)
    requires CutIsShort(cut) && |ks| >= 2 && ks[0] == Refers && StartsWith(ks, 1) && delay < FURTHEST
    ensures Readable(On(ks, cut, l12), KIND, 1)
    ensures var s := On(ks, cut, l12);
      (0 < delay <= 1152 ==> Opened(s, KIND, delay) == DropOf(Continuous(s, KIND), 0)) &&
      (OpeningAgrees(s, KIND, 1, SourceOf(s).initial, delay) <==> delay == 0 || delay >= 1152 * |ks|)
  {
    hide Bytes, Taken, Readable, Uniform, TwoFrameMemory, Plays, Lists, Placed, Own, Counted, Continuous, Total,
      Samples, Units, DecodesFrom, Complete, SourceOf, OpeningAgrees, Lost, DropOf;
    var s := On(ks, cut, l12);
    FreshIndex(ks, cut, l12);
    FirstFails(ks, cut, l12, SourceOf(s).initial);
    ReadableMeans(s, KIND, 1);
    OpenYields(s, KIND, 1, delay);
    OpenAgreesIff(s, KIND, 1, SourceOf(s).initial, delay);
  }

  /** Broken frames, and a plain one behind them. */
  function LateStart(n: nat): seq<Kind> { seq(n, _ => Broken) + [Plain] }

  /**
   * After 256 frames with illegal side info the index of a fresh stream counts the last of them: it finds 1152 samples
   * more than there are, every seek is early by as many, and none gives what reading on from the opening does.
   */
  lemma LateStartIsMiscounted(cut: nat, l12: Layer12)
    requires CutIsShort(cut)
    ensures Readable(On(LateStart(256), cut, l12), KIND, 256) && Placed(On(LateStart(256), cut, l12))
    ensures Taken(Bytes(LateStart(256), cut), FramesOf(257), l12)
    ensures var s := On(LateStart(256), cut, l12);
      var st := SourceOf(s).initial;
      Counted(s, st) == 255 && ScannedLength(s) == |Continuous(s, KIND)| + 1152 &&
      !AllExact(s, KIND, 256, st, 0) && !OpeningAgrees(s, KIND, 256, st, 0)
  {
    hide Bytes, Taken, Readable, Uniform, TwoFrameMemory, Plays, Lists, Placed, Own, Counted, Continuous, Total,
      Samples, Units, DecodesFrom, Complete, SourceOf, AllExact, OpeningAgrees, ScannedLength, Left;
    var ks := LateStart(256);
    var s := On(ks, cut, l12);
    assert StartsWith(ks, 256);
    HypothesesHold(ks, cut, l12, 256);
    StartIsFresh(s);
    FreshIndexIff(s, KIND, 256);
    ScanCountsSamples(s, KIND, 256);
    TotalOfFrames(ks, cut, l12, 255, 256);
    TotalOfFrames(ks, cut, l12, 256, 257);
    ContinuousLength(s, KIND, 256);
    NoSamples(s);
    OpenAgreesIff(s, KIND, 256, SourceOf(s).initial, 0);
    SmallMin(0, Total(s, 0, 256));
  }

  // ---------------------------------------------------------------- a gap

  /** A row of a + 10 plain frames, zeros as long as a frame, and a row of `c` plain frames. */
  function Gapped(a: nat, c: nat): (b: seq<Byte>)
    ensures |b| == SIZE * (a + 11 + c)
    ensures forall i :: 0 <= i < |b| ==> b[i] == if i / SIZE == a + 10 then 0 else ByteOf(Plain, i % SIZE)
  {
    seq(SIZE * (a + 11 + c), i requires i >= 0 => if i / SIZE == a + 10 then 0 else ByteOf(Plain, i % SIZE))
  }

  /** All but the last frame of the first row are taken, and all of the second. */
  function GapFrames(a: nat, c: nat): (fs: seq<FrameRef>)
    ensures |fs| == a + 9 + c
    ensures forall k :: 0 <= k < |fs| ==> fs[k] == Frame(if k < a + 9 then k else k + 2)
  {
    seq(a + 9 + c, k requires k >= 0 => Frame(if k < a + 9 then k else k + 2))
  }

  /** The first `a` of them are listed, nine are not, and all of the second row are again. */
  function GapPlaces(a: nat, c: nat): (ix: seq<nat>)
    ensures |ix| == a + c && forall k :: 0 <= k < |ix| ==> ix[k] == if k < a then k else k + 9
  {
    seq(a + c, k requires k >= 0 => if k < a then k else k + 9)
  }

  ghost function WithGap(a: nat, c: nat, l12: Layer12): (s: Setting<int>)
    ensures s.b == Gapped(a, c) && s.fs == GapFrames(a, c) && s.ix == GapPlaces(a, c) && s.l12 == l12 && s.dsp == Mute()
  {
    Setting(Gapped(a, c), GapFrames(a, c), GapPlaces(a, c), l12, Mute())
  }

  lemma GapPiece(a: nat, c: nat, j: nat)
    requires j < a + 11 + c && j != a + 10
    ensures Piece(Gapped(a, c), j, Plain) && HeadAt(Gapped(a, c), j)
  {
    forall r: nat | r < SIZE ensures ByteIs(Gapped(a, c), j, r, Plain) { Inside(j, r); }
    hide Gapped, HeadAt;
    PieceHasHead(Gapped(a, c), j, Plain);
  }

  lemma OnlyHeads(a: nat, c: nat, p: nat)
    requires HeaderAt(Gapped(a, c), p)
    ensures p % SIZE == 0 && p / SIZE != a + 10
  {}

  lemma GapRows(a: nat, c: nat)
    requires c > 0
    ensures var b := Gapped(a, c);
      HeadsIn(b, 0, a + 9) && RowEnds(b, a + 9) && HeadsIn(b, a + 11, a + 10 + c) && RowEnds(b, a + 10 + c)
  {
    hide Gapped, HeadAt, Piece, HeaderAt;
    var b := Gapped(a, c);
    forall j: nat | j <= a + 9 ensures HeadAt(b, j) { GapPiece(a, c, j); }
    forall j: nat | a + 11 <= j <= a + 10 + c ensures HeadAt(b, j) { GapPiece(a, c, j); }
    Inside(a + 10, 0);
    if HeaderAt(b, SIZE * (a + 10)) { OnlyHeads(a, c, SIZE * (a + 10)); }
  }

  /** A search that starts at one of the last ten frames of the first row finds the first of the second row. */
  lemma FindOverGap(a: nat, c: nat, q: nat)
    requires c >= 2 && a <= q <= a + 9
    ensures Find(Gapped(a, c), SIZE * q, SIZE * q) == Some(Frame(a + 11))
  {
    hide Gapped, HeadAt, HeadsIn, RowEnds, Accepted, HeaderAt, Found;
    var (b, lo) := (Gapped(a, c), SIZE * q);
    GapRows(a, c);
    forall p: nat | lo <= p < SIZE * (a + 11) && HeaderAt(b, p) && InScan(b, p) ensures Accepted(b, lo, p).None? {
      OnlyHeads(a, c, p);
      var j := p / SIZE;
      assert p == SIZE * j;
      FrameAccepted(b, 0, a + 9, lo, j);
    }
    PassesBy(b, lo, lo, SIZE * (a + 11));
    FrameAccepted(b, a + 11, a + 10 + c, lo, a + 11);
    HeadIs(b, a + 11);
    FindHere(b, lo, SIZE * (a + 11), Frame(a + 11));
  }

  lemma FindHere(b: seq<Byte>, lo: nat, i: nat, f: FrameRef)
    requires InScan(b, i) && HeaderAt(b, i) && Accepted(b, lo, i) == Some(f)
    ensures Find(b, lo, i) == Some(f)
  {
    hide Accepted, HeaderAt;
  }

  lemma BehindPlain(b: seq<Byte>, j: nat, l12: Layer12)
    requires Piece(b, j, Plain)
    ensures Frame(j).End() <= |b| && SIZE * j + HDR_SIZE <= |b| && Behind(b, Frame(j), l12) == Ready(Head(), 0, [])
  {
    hide Piece, Header.Valid, UnitAt;
    PieceHasHead(b, j, Plain);
    UnitIs(b, l12, j, Plain);
  }

  lemma GapIsTaken(a: nat, c: nat, l12: Layer12)
    requires a > 0 && c >= 2
    ensures Taken(Gapped(a, c), GapFrames(a, c), l12)
  {
    hide Gapped, GapFrames, Found, TakenAt;
    var (b, fs) := (Gapped(a, c), GapFrames(a, c));
    GapFound(a, c, 0);
    assert Indexed(b, fs);
    FirstTaken(b, fs, l12);
    forall k | 0 < k <= |fs| ensures TakenAt(b, fs, l12, k) { GapNext(a, c, l12, k); }
  }

  lemma GapFound(a: nat, c: nat, k: nat)
    requires a > 0 && c >= 2 && k < a + c
    ensures Found(Gapped(a, c), Frame(if k < a then k else k + 11))
  {
    hide Gapped, HeadAt, HeadsIn, RowEnds, Accepted, Found;
    GapRows(a, c);
    if k < a {
      FrameAccepted(Gapped(a, c), 0, a + 9, 0, k);
    } else {
      FrameAccepted(Gapped(a, c), a + 11, a + 10 + c, 0, k + 11);
    }
  }

  /** The piece in which the frame taken at `k` lies. */
  function GapPieceOf(a: nat, k: nat): nat { if k < a + 9 then k else k + 2 }

  lemma LocatedEither(b: seq<Byte>, st: State, off: nat)
    requires off <= |b|
    ensures Located(st, b, off) == if Continuation(st, b, off).Some? then Continuation(st, b, off)
      else Find(b, off, off)
  {
    hide Continuation, Find;
  }

  lemma GapLocated(a: nat, c: nat, k: nat)
    requires a > 0 && c >= 2 && 0 < k <= a + 9 + c
    ensures var e := SIZE * (GapPieceOf(a, k - 1) + 1);
      e <= |Gapped(a, c)| &&
      Located(Ready(Head(), 0, []), Gapped(a, c), e) == if k < a + 9 + c then Some(Frame(GapPieceOf(a, k))) else None
  {
    hide Gapped, HeadsIn, RowEnds, Find, Continuation, Located;
    var (b, j) := (Gapped(a, c), GapPieceOf(a, k - 1) + 1);
    GapRows(a, c);
    LocatedEither(b, Ready(Head(), 0, []), SIZE * j);
    if k < a + 9 {
      FrameContinued(b, 0, a + 9, j, []);
    } else if k == a + 9 {
      FrameContinued(b, 0, a + 9, j, []);
      FindOverGap(a, c, j);
    } else if k < a + 9 + c {
      FrameContinued(b, a + 11, a + 10 + c, j, []);
    } else {
      NothingAtEnd(b, Ready(Head(), 0, []));
    }
  }

  lemma GapNext(a: nat, c: nat, l12: Layer12, k: nat)
    requires a > 0 && c >= 2 && 0 < k <= a + 9 + c && Indexed(Gapped(a, c), GapFrames(a, c))
    ensures TakenAt(Gapped(a, c), GapFrames(a, c), l12, k)
  {
    hide Gapped, GapFrames, Piece, Behind, Located, Indexed;
    var j := GapPieceOf(a, k - 1);
    GapPiece(a, c, j);
    BehindPlain(Gapped(a, c), j, l12);
    GapLocated(a, c, k);
    assert GapFrames(a, c)[k - 1] == Frame(j) && Frame(j).End() == SIZE * (j + 1);
  }

  /** The hypotheses of the seek theorems hold on these streams, too. */
  lemma GapIsReadable(a: nat, c: nat, l12: Layer12)
    requires a > 0 && c >= 2
    ensures Readable(WithGap(a, c, l12), KIND, 0) && Taken(Gapped(a, c), GapFrames(a, c), l12)
    ensures Uniform(WithGap(a, c, l12), KIND) && Plays(WithGap(a, c, l12), 0) && Lists(WithGap(a, c, l12), 0)
    ensures forall j: nat :: j < a + 9 + c ==> Count(WithGap(a, c, l12), j) == 1152
  {
    hide Gapped, GapFrames, GapPlaces, Taken, Found, Uniform, TwoFrameMemory, Plays, Count, WithGap;
    var s := WithGap(a, c, l12);
    GapIsTaken(a, c, l12);
    forall k | 0 <= k < |s.fs| ensures IsFrame(s.b, s.fs[k]) {
      var j: nat := if k < a + 9 then k else k + 2;
      GapPiece(a, c, j);
    }
    FramesAreUniform(s);
    GapPlays(a, c, l12);
    forall k | 0 <= k < |s.ix| ensures Found(s.b, s.fs[s.ix[k]]) { GapFound(a, c, k); }
  }

  lemma GapPlays(a: nat, c: nat, l12: Layer12)
    requires a > 0 && c >= 2 && Taken(Gapped(a, c), GapFrames(a, c), l12)
    ensures Plays(WithGap(a, c, l12), 0)
  {
    hide Gapped, GapFrames, GapPlaces, Taken, Run, UnitAt, Continuation, Piece, Units, WithGap;
    var s := WithGap(a, c, l12);
    forall k | 0 <= k < |s.fs| ensures DecodesAt(UnitsOf(s), 0, k) {
      var j: nat := if k < a + 9 then k else k + 2;
      GapPiece(a, c, j);
      UnitIs(s.b, l12, j, Plain);
      UnitsAre(s.b, s.fs, l12, k);
    }
  }

  /** The seek to the frame listed at `t` starts three frames before it. */
  lemma GapChosen(a: nat, c: nat, l12: Layer12, st: Full<int>, p: nat, t: nat)
    requires a > 0 && c >= 2 && a + 3 <= t < a + c && 1152 * t <= p < 1152 * (t + 1)
    requires Readable(WithGap(a, c, l12), KIND, 0) && Own(WithGap(a, c, l12), st)
    ensures Chosen(WithGap(a, c, l12), KIND, 0, st, p) == (t, t - 3)
  {
    hide Gapped, GapFrames, Taken, Found, Readable, Uniform, Plays, Lists, Own, IndexBy, Count, IsTarget, RestartsAt,
      WithGap, FillBytes, SideInfoFails, Piece, Chosen, Counted;
    var s := WithGap(a, c, l12);
    ReadableMeans(s, KIND, 0);
    GapIsReadable(a, c, l12);
    ListedIsIndexed(s);
    GapPiece(a, c, t + 8);
    FillOfFrame(s.b, t + 8, Plain);
    assert Listed(s)[t - 3] == Frame(t + 8);
    RestartGoesBack(s.b, Listed(s), t);
    IndexIsEven(s, 0, st, t);
    forall j: nat | j < |s.ix| ensures IndexBy(s, st)[j].sample == 1152 * j { IndexIsEven(s, 0, st, j); }
    TargetAmong(IndexBy(s, st), p, t);
    ChosenIs(s, KIND, 0, st, p, t, t - 3);
  }

  lemma TargetAmong(index: seq<Entry>, p: nat, t: nat)
    requires t < |index| && 1152 * t <= p < 1152 * (t + 1) &&
      forall j: nat :: j < |index| ==> index[j].sample == 1152 * j
    ensures IsTarget(index, p, t)
  {}

  /** As the back-fill never goes further than one frame, every position in range can be reached. */
  lemma GapIsReachable(a: nat, c: nat, l12: Layer12, st: Full<int>, p: nat)
    requires a > 0 && c >= 2 && p <= FURTHEST && Own(WithGap(a, c, l12), st) && Readable(WithGap(a, c, l12), KIND, 0)
    ensures Taken(Gapped(a, c), GapFrames(a, c), l12) && Placed(WithGap(a, c, l12))
    ensures Reachable(WithGap(a, c, l12), KIND, st, p)
  {
    hide Gapped, GapFrames, GapPlaces, Taken, Placed, Readable, Uniform, Plays, Lists, Own, IndexBy, ListedTotal,
      Chooses, FillsToo, WithGap, Counted;
    var s := WithGap(a, c, l12);
    ReadableMeans(s, KIND, 0);
    IndexIsFit(s, KIND, 0, st);
    forall t: nat, i: nat | Chooses(s, KIND, IndexBy(s, st), p, t, i) ensures Fits(s, IndexBy(s, st), p, t, i) {
      NearFits(s, KIND, 0, st, p, t, i);
      GapFills(a, c, l12, IndexBy(s, st), p, t, i);
    }
  }

  lemma GapFills(a: nat, c: nat, l12: Layer12, index: seq<Entry>, p: nat, t: nat, i: nat)
    requires a > 0 && c >= 2 && Taken(Gapped(a, c), GapFrames(a, c), l12) && Placed(WithGap(a, c, l12))
    requires Chooses(WithGap(a, c, l12), KIND, index, p, t, i)
    ensures t < a + c && FillsToo(WithGap(a, c, l12), t, i)
  {
    hide Gapped, GapFrames, Taken, Found, IsTarget, RestartsAt, WithGap, FillBytes, SideInfoFails, Piece, FilledBetween,
      BackFillStops;
    var s := WithGap(a, c, l12);
    ListedIsIndexed(s);
    if t >= 3 {
      var j: nat := if t - 3 < a then t - 3 else t + 8;
      GapPiece(a, c, j);
      FillOfFrame(s.b, j, Plain);
      assert Listed(s)[t - 3] == Frame(j);
      RestartGoesBack(s.b, Listed(s), t);
      RestartsOnce(s.b, Listed(s), t, i, t - 3);
    } else {
      RestartInside(s.b, Listed(s), KIND.layer, t, i);
    }
  }

  lemma RestartsOnce(b: seq<Byte>, fs: seq<FrameRef>, t: nat, i: nat, j: nat)
    requires Indexed(b, fs) && 0 < t < |fs| && RestartsAt(b, fs, 3, t, i) && RestartsAt(b, fs, 3, t, j)
    ensures i == j
  {
    hide Indexed, BackFillStops;
    BackFillStopsOnce(b, fs, i, j, t - Min(t, MINIMP3_PREDECODE_FRAMES));
  }

  lemma GapLength(a: nat, c: nat, l12: Layer12)
    requires a > 0 && c >= 2
    ensures Taken(Gapped(a, c), GapFrames(a, c), l12) && Readable(WithGap(a, c, l12), KIND, 0) &&
      Placed(WithGap(a, c, l12))
    ensures var s := WithGap(a, c, l12);
      |Continuous(s, KIND)| == 1152 * (a + 9 + c) && ScannedLength(s) + 9 * 1152 == |Continuous(s, KIND)| &&
      Samples(s, 9) == 9 * 1152
  {
    hide Gapped, GapFrames, Taken, Placed, Readable, Uniform, Plays, Lists, Count, Samples, Continuous, ScannedLength,
      WithGap, Total;
    var s := WithGap(a, c, l12);
    GapIsReadable(a, c, l12);
    ReadableMeans(s, KIND, 0);
    SamplesAre(s, 9);
    SamplesAre(s, a + 9 + c);
    NoSamples(s);
    ContinuousLength(s, KIND, 0);
    TotalIsSamples(s, KIND, 0, a + 9 + c);
    ScanCountsSamples(s, KIND, 0);
  }

  lemma GapLate(a: nat, c: nat, l12: Layer12, st: Full<int>, p: nat)
    requires a > 0 && c >= 4 && 1152 * (a + 3) <= p < 1152 * (a + c)
    requires Readable(WithGap(a, c, l12), KIND, 0) && Own(WithGap(a, c, l12), st)
    ensures Late(WithGap(a, c, l12), KIND, 0, st, p) == 9 * 1152
  {
    hide Gapped, GapFrames, Taken, Placed, Readable, Own, Samples, Chosen, WithGap;
    GapLength(a, c, l12);
    GapChosen(a, c, l12, st, p, p / 1152);
  }

  lemma GapLanding(a: nat, c: nat, l12: Layer12, st: Full<int>, p: nat)
    requires a > 0 && c >= 4 && 1152 * (a + 3) <= p < 1152 * (a + c)
    requires Readable(WithGap(a, c, l12), KIND, 0) && Own(WithGap(a, c, l12), st)
    ensures Landing(WithGap(a, c, l12), KIND, 0, st, p) == p + 9 * 1152
  {
    hide Gapped, GapFrames, Taken, Placed, Readable, Own, Lost, Late, WithGap;
    LostIff(WithGap(a, c, l12), KIND, 0, st);
    GapLate(a, c, l12, st, p);
  }

  /**
   * Behind the gap seeks are late by the nine frames that are taken but not listed, as soon as they restart behind
   * it, and the length found by a scan is too small by as much.
   */
  lemma GapMakesSeeksLate(a: nat, c: nat, l12: Layer12, p: nat)
    requires a > 0 && c >= 4 && 1152 * (a + 3) <= p < 1152 * (a + c) && p <= FURTHEST
    ensures Readable(WithGap(a, c, l12), KIND, 0) && Taken(Gapped(a, c), GapFrames(a, c), l12) &&
      Placed(WithGap(a, c, l12))
    ensures var s := WithGap(a, c, l12);
      var st := SourceOf(s).initial;
      Own(s, st) && Reachable(s, KIND, st, p) &&
      Sought(s, KIND, 0, st, p) == DropOf(Continuous(s, KIND), p + 9 * 1152) != DropOf(Continuous(s, KIND), p) &&
      ScannedLength(s) + 9 * 1152 == |Continuous(s, KIND)|
  {
    hide Gapped, GapFrames, Taken, Placed, Readable, Own, Continuous, Sought, Landing, DropOf, Reachable,
      ScannedLength, WithGap, SourceOf, Samples;
    var s := WithGap(a, c, l12);
    var st := SourceOf(s).initial;
    GapLength(a, c, l12);
    StartIsFresh(s);
    GapIsReachable(a, c, l12, st, p);
    GapLanding(a, c, l12, st, p);
    SoughtIs(s, KIND, 0, st, p);
    SameDropIff(Continuous(s, KIND), p + 9 * 1152, p);
  }

  // ---------------------------------------------------------------- a whole buffer

  lemma FromHere<T>(s: seq<T>, k: nat)
    requires k < |s|
    ensures s[k..] == [s[k]] + s[k + 1..]
  {}

  /** Where iterating comes to listed frame `k`, and which frame that is. */
  function ComesAt(a: nat, k: nat): nat { if k <= a then SIZE * k else SIZE * (k + 11) }

  function GapFrame(a: nat, k: nat): FrameRef { Frame(if k < a then k else k + 11) }

  lemma GapFinds(a: nat, c: nat, k: nat)
    requires a > 0 && c >= 2 && k < a + c
    ensures Find(Gapped(a, c), ComesAt(a, k), ComesAt(a, k)) == Some(GapFrame(a, k))
    ensures GapFrame(a, k).End() == ComesAt(a, k + 1)
  {
    hide Gapped, Find;
    if k == a { FindOverGap(a, c, a); } else { GapFound(a, c, k); }
  }

  lemma GapListedAt(a: nat, c: nat, l12: Layer12, k: nat)
    requires Placed(WithGap(a, c, l12))
    ensures |Listed(WithGap(a, c, l12))| == a + c
    ensures k < a + c ==> Listed(WithGap(a, c, l12))[k] == GapFrame(a, k)
  {
    hide Placed;
  }

  /** Iterating from listed frame `k` on finds those listed. */
  lemma {:induction false} GapListed(a: nat, c: nat, l12: Layer12, k: nat)
    requires a > 0 && c >= 2 && k <= a + c && Placed(WithGap(a, c, l12))
    ensures |Listed(WithGap(a, c, l12))| == a + c
    ensures Frames(Gapped(a, c), ComesAt(a, k)) == Listed(WithGap(a, c, l12))[k..]
    decreases a + c - k
  {
    hide Gapped, GapFrames, Placed, Frames, Find, WithGap, Listed, ComesAt, GapFrame;
    GapListedAt(a, c, l12, k);
    FramesStep(Gapped(a, c), ComesAt(a, k));
    if k < a + c {
      GapFinds(a, c, k);
      GapListed(a, c, l12, k + 1);
      FromHere(Listed(WithGap(a, c, l12)), k);
    } else {
      ComesToEnd(a, c);
      NoFrames(Gapped(a, c), ComesAt(a, k));
    }
  }

  lemma ComesFirst(a: nat)
    ensures ComesAt(a, 0) == 0
  {}

  lemma ComesToEnd(a: nat, c: nat)
    requires c > 0
    ensures ComesAt(a, a + c) == |Gapped(a, c)|
  {
    hide Gapped;
  }

  lemma GapBytes(a: nat, c: nat)
    requires c > 0
    ensures var b := Gapped(a, c); b[0] == 0xFF && b[|b| - 128] == 0 && b[|b| - 32] == 0
  {
    Inside(a + 10 + c, SIZE - 128);
    Inside(a + 10 + c, SIZE - 32);
  }

  lemma GapIsWholeBuffer(a: nat, c: nat)
    requires c > 0
    ensures AudioRange(Gapped(a, c)) == (0, |Gapped(a, c)|) && Gapped(a, c)[..|Gapped(a, c)|] == Gapped(a, c)
  {
    hide Gapped, WithoutId3v1, WithoutApe, Id3v2Size;
    var b := Gapped(a, c);
    GapBytes(a, c);
    assert b[0..] == b;
    NoTags(b);
  }

  lemma NoTags(b: seq<Byte>)
    requires |b| >= 128 && b[0] != 0x49 && b[|b| - 128] == 0 && b[|b| - 32] == 0
    ensures Id3v2Size(b) == 0 && WithoutId3v1(b) == |b| && WithoutApe(b, |b|) == |b|
  {
    OtherText(b, 0, ID3);
    OtherText(b, |b| - 128, TAG);
    OtherText(b, |b| - 32, APETAGEX);
  }

  lemma OtherText(b: seq<Byte>, i: nat, text: seq<Byte>)
    requires text != [] && i < |b| && b[i] != text[0]
    ensures !TextAt(b, i, text)
  {
    if i + |text| <= |b| { assert b[i..i + |text|][0] == b[i]; }
  }

  lemma NoTagInHead(b: seq<Byte>)
    requires Piece(b, 0, Plain)
    ensures Frame(0).End() <= |b| && HeaderAt(b, 0) && PlanFor(b, Frame(0)) == Plan(0, 0, None)
    ensures KindOf(At(b, 0)) == KIND
  {
    hide Field, Block.Ok, Block.MainDataBegin, Block.PartSum, Block.Granules, Header.Valid, Header.IsCrc, BodyOf, Body;
    PieceHasHead(b, 0, Plain);
    HeadMeans();
    BodyIs(b, 0, Plain);
    BlockIsOk(SideBlock(b, Frame(0)), Plain);
    assert ByteIs(b, 0, 21, Plain);
    assert b[0..SIZE][21..25][0] == 0;
  }

  /** What `Playback.Play` and `Playback.LoadAndOpen` ask for holds of these buffers, whatever the position. */
  lemma PlayIsPossible(a: nat, c: nat, l12: Layer12, position: nat)
    requires a > 0 && c >= 2 && position <= FURTHEST
    ensures var (s, plan) := (WithGap(a, c, l12), Plan(0, 0, None));
      Opens(s, Gapped(a, c), Frame(0), plan, KIND) && Playable(s, plan, KIND, 0) && FitsFrame(s.dsp) &&
      Taken(s.b, s.fs, s.l12) && Placed(s) &&
      forall st, p: nat :: Own(s, st) && p <= position + plan.skip ==> Reachable(s, KIND, st, p)
  {
    hide Gapped, GapFrames, GapPlaces, Taken, Placed, Readable, Uniform, Plays, Lists, Own, Reachable, WithGap, Find,
      AudioRange, Frames, Piece, PlanFor, Listed, AllTaken;
    var s := WithGap(a, c, l12);
    GapIsReadable(a, c, l12);
    ReadableMeans(s, KIND, 0);
    GapIsWholeBuffer(a, c);
    GapPiece(a, c, 0);
    NoTagInHead(s.b);
    GapFound(a, c, 0);
    TakenIff(s.b, s.fs, l12, 0);
    GapListed(a, c, l12, 0);
    ComesFirst(a);
    forall st, p: nat | Own(s, st) && p <= position ensures Reachable(s, KIND, st, p) {
      GapIsReachable(a, c, l12, st, p);
    }
  }

  // ---------------------------------------------------------------- a byte-mode seek

  /** An ID3v1 tag without a text. */
  function EmptyTag(): (tag: seq<Byte>)
    ensures |tag| == 128
  {
    TAG + seq(125, _ => 0)
  }

  /**
   * A frame with a tag behind it: a byte-mode seek to byte 600 of the file is not clamped to the 576 bytes that are
   * read. The size left, taken on 64 bits, wraps around, and the next read takes INT_MAX bytes to be there.
   */
  lemma ByteSeekPassesTheEnd()
    ensures var buf := Bytes([Plain], 0) + EmptyTag();
      AudioRange(buf) == (0, SIZE) && Min(600, |buf|) == 600 > SIZE &&
      Min((SIZE - 600) % 0x1_0000_0000_0000_0000, INT_MAX) == INT_MAX
  {
    hide Bytes, AudioRange, EmptyTag;
    PlainBytes();
    TaggedRange(Bytes([Plain], 0));
  }

  lemma PlainBytes()
    ensures var audio := Bytes([Plain], 0); |audio| == SIZE && audio[0] == 0xFF && audio[349] == 0 && audio[544] == 0
  {}

  lemma TaggedRange(audio: seq<Byte>)
    requires |audio| == SIZE && audio[0] == 0xFF && audio[349] == 0 && audio[544] == 0
    ensures AudioRange(audio + EmptyTag()) == (0, SIZE)
  {
    hide WithoutId3v1, EmptyTag;
    var buf := audio + EmptyTag();
    assert buf[0] == 0xFF && buf[0..] == buf == audio + [] + EmptyTag();
    TagIsTag();
    Id3v1IsStripped(audio, [], EmptyTag());
    assert buf[544] == audio[544];
  }

  lemma TagIsTag()
    ensures TextAt(EmptyTag(), 0, TAG)
  {}
}
