/** Opening a buffer: mp3dec_ex_open_buf with the part of mp3dec_load_index that looks at the first frame. */
module Opening {
  import opened Bits
  import opened Header
  import opened Sync
  import opened Decoder
  import opened Player
  import opened Load
  import opened Wrappers

  /** The first frame found starts the frames that iterating from it finds. */
  lemma FramesAgain(b: seq<Byte>, lo: nat)
    requires Find(b, lo, lo).Some?
    ensures var f := Find(b, lo, lo).value; Frames(b, lo) == [f] + Frames(b, f.End()) == Frames(b, f.offset)
  {
    hide Find;
    FoundAgain(b, lo);
  }

  lemma NoneFound(b: seq<Byte>, lo: nat)
    ensures Frames(b, lo) == [] <==> Find(b, lo, lo).None?
    ensures Find(b, lo, lo).Some? ==> Frames(b, lo)[0] == Find(b, lo, lo).value
  {
    hide Find;
  }

  /** A tag announces a delay of at most 4095 + 529 samples a channel. */
  lemma DelayIsShort(b: seq<Byte>, f: FrameRef)
    requires f.End() <= |b| && HeaderAt(b, f.offset)
    ensures PlanFor(b, f).skip <= 2 * (4095 + 529)
  {
    hide SideBlock, Header.Valid, Header.FrameSamples, AnnouncedLength;
    var h, tag := At(b, f.offset), if At(b, f.offset).Layer() != 3 then NoTag else TagOf(b, f);
    if tag.Announced? {
      assert tag.delay <= 4095 + 529;
      ManyChannels(tag.delay, h);
    }
  }

  lemma ManyChannels(n: nat, h: Header)
    ensures AllChannels(n, h) <= 2 * n
  {}

  /** The length a plan announces, 0 for none. */
  function LengthOf(p: Plan): nat { if p.length.Some? then p.length.value else 0 }

  /** A reader as it is opened when `f` is the first frame found. */
  ghost predicate OpenedAt<S(!new)>(ex: Mp3Ex<S>, src: Source<S>, f: FrameRef, scan: bool)
    requires src.MakesProgress() && f.End() <= |src.b| && HeaderAt(src.b, f.offset)
    reads ex
  {
    var p := PlanFor(src.b, f);
    ex.Valid() && ex.IndexCovers() && !ex.failed && ex.curSample == 0 &&
    ex.src == src && ex.stream == KindOf(At(src.b, f.offset)) && ex.fs == Frames(src.b, p.start) &&
    ex.startOffset == p.start && ex.startDelay == p.skip && ex.detectedSamples == LengthOf(p) &&
    ex.Pending() == Yield(src, ex.stream, src.initial, p.start, p.skip) &&
    ex.indexesBuilt == (scan && p.length.None?) &&
    (if ex.indexesBuilt
     then ex.index == IndexWith(src, ex.fs, src.initial) && ex.samples == CountWith(src, ex.fs, src.initial)
     else ex.mp3d == src.initial && ex.offset == p.start && ex.samples == LengthOf(p))
  }

  /**
   * mp3dec_ex_open_buf. Without a frame there is nothing to be read, and no reader. Otherwise the first frame gives
   * the kind of the stream and its tag, if it has one, start, delay and length; only without a length, and only when
   * asked to, are all frames scanned. The frames are those that an index built later finds, too.
   */
  method OpenBuf<S(!new)>(buf: seq<Byte>, src: Source<S>, scan: bool) returns (ex: Mp3Ex?<S>)
    requires src.MakesProgress() && src.b == buf[..AudioRange(buf).1]
    ensures var first := Find(src.b, AudioRange(buf).0, AudioRange(buf).0);
      (ex == null <==> first.None?) && (ex != null ==> fresh(ex) && OpenedAt(ex, src, first.value, scan))
  {
    hide Find, AudioRange, Continues, OpenedAt, Header.Valid, Source.MakesProgress, Frames;
    var lo, hi := SkipId3(buf);
    var r, calls := IterateBuf(buf, calls => 0);
    CalledForAll(calls, r);
    NoneFound(src.b, lo);
    if calls == [] {
      return null;
    }
    FramesAgain(src.b, lo);
    ex := OpenWith(src, calls, scan);
  }

  lemma CalledForAll(calls: seq<FrameRef>, r: int)
    requires r != 0 ==> (calls => 0)(calls) == r
    ensures r == 0
  {}

  /** The part that looks at the first frame. */
  method OpenWith<S(!new)>(src: Source<S>, calls: seq<FrameRef>, scan: bool) returns (ex: Mp3Ex<S>)
    requires src.MakesProgress() && calls != [] && calls[0].End() <= |src.b| && HeaderAt(src.b, calls[0].offset)
    requires calls == Frames(src.b, calls[0].offset) && calls[1..] == Frames(src.b, calls[0].End()) && calls[0].size > 0
    ensures fresh(ex) && OpenedAt(ex, src, calls[0], scan)
  {
    hide Yield, IndexWith, CountWith, Header.Valid, PlanFor, Source.MakesProgress, Indexed, Increasing, Frames, KindOf;
    var f := calls[0];
    var start, skip, length := MakePlan(src.b, f);
    PlanStarts(src.b, f);
    DelayIsShort(src.b, f);
    FramesAreIndexed(src.b, start);
    var fs := if start == f.offset then calls else calls[1..];
    var kind := KindOf(At(src.b, f.offset));
    if scan && length == None {
      ex := new Mp3Ex.Scanned(src, kind, fs, start);
    } else {
      ex := new Mp3Ex(src, kind, fs, start, skip, if length.Some? then length.value else 0);
    }
  }

  /** Decoding starts with the first frame, or behind it if it holds a tag; without a length there is no delay. */
  lemma PlanStarts(b: seq<Byte>, f: FrameRef)
    requires f.End() <= |b| && HeaderAt(b, f.offset)
    ensures var p := PlanFor(b, f); (p.start == f.offset || p.start == f.End()) && (p.length.None? ==> p.skip == 0)
  {
    hide TagOf, Header.Valid, AnnouncedLength;
  }
}
