/** The streaming reader mp3dec_ex_t over a whole buffer: index, seek and read. */
module Player {
  import opened Bits
  import opened Header
  import opened SideInfo
  import opened Sync
  import opened Reservoir
  import opened Decoder
  import opened Index
  import opened Wrappers

  const INT_MAX: nat := 0x7FFF_FFFF
  const UINT64_MAX: nat := 0xFFFF_FFFF_FFFF_FFFF
  const MINIMP3_PREDECODE_FRAMES: nat := 2
  const MAX_PROBED: nat := 256

  type Sample = int

  function Min(a: int, b: int): int { if a > b then b else a }

  // ---------------------------------------------------------------- a frame decoder, seen from outside

  /** What a call reports about the frame it found. */
  datatype Info = Info(channels: nat, hz: nat, layer: nat)

  /** One call of mp3dec_decode_frame: the next state, the bytes consumed, the samples of all channels, the bit rate. */
  datatype Decoded<S> = Decoded(state: S, bytes: nat, pcm: seq<Sample>, info: Option<Info>, kbps: nat)

  /**
   * A stream and a deterministic decoder for it; the decoder is called at an offset with all the bytes from there on.
   */
  datatype Source<!S(!new)> = Source(b: seq<Byte>, initial: S, decode: (S, nat) -> Decoded<S>) {
    /**
     * A call consumes at least a byte, and all that is left when it finds no frame (as proved of
     * mp3dec_decode_frame).
     */
    ghost predicate MakesProgress() {
      forall st, off {:trigger decode(st, off)} :: 0 <= off < |b| ==>
        var d := decode(st, off);
        if d.info.Some? then 0 < d.bytes <= |b| - off else d.bytes == |b| - off && d.pcm == []
    }

    /** hdr_frame_samples of the bytes at an offset, whatever they are; reading beyond the buffer is not modelled. */
    function HeaderSamples(off: nat): nat {
      if off + 1 < |b| then Header(0, b[off + 1], 0, 0).FrameSamples() else 0
    }
  }

  // ---------------------------------------------------------------- what is still to be read

  /** Stream properties that a frame must share. */
  predicate SameKind(stream: Info, frame: Info) { stream.hz == frame.hz && stream.layer == frame.layer }

  /**
   * Every sample that decoding from `off` in state `st` will yield after `skip` samples are dropped: frames that give
   * no samples are counted against `skip` too, and the first frame of another kind ends the stream.
   */
  ghost function Yield<S(!new)>(src: Source<S>, stream: Info, st: S, off: nat, skip: nat): seq<Sample>
    requires src.MakesProgress()
    decreases |src.b| - off
  {
    if off >= |src.b| then [] else
    var d := src.decode(st, off);
    if d.info.None? || !SameKind(stream, d.info.value) then [] else
    var n := |d.pcm|;
    if n > 0 then
      var s := Min(n, skip);
      if s < n && stream.channels != d.info.value.channels then [] else
      d.pcm[s..] + Yield(src, stream, d.state, off + d.bytes, skip - s)
    else
      var lost := src.HeaderSamples(off) * d.info.value.channels;
      Yield(src, stream, d.state, off + d.bytes, skip - Min(lost, skip))
  }

  lemma YieldEnds<S(!new)>(src: Source<S>, stream: Info, st: S, skip: nat)
    requires src.MakesProgress()
    ensures Yield(src, stream, st, |src.b|, skip) == []
  {}

  /**
   * One call, case by case: a frame of another rate or layer ends the stream, and so does one with other channels that
   * has samples to give; the samples of any other frame, behind those to skip, come before what the next call gives.
   */
  lemma YieldNext<S(!new)>(src: Source<S>, stream: Info, st: S, off: nat, skip: nat)
    requires src.MakesProgress() && off < |src.b|
    ensures var d, now := src.decode(st, off), Yield(src, stream, st, off, skip);
      if d.info.None? then now == [] && d.pcm == [] && d.bytes == |src.b| - off else
        0 < d.bytes <= |src.b| - off &&
        var s := Min(if d.pcm != [] then |d.pcm| else src.HeaderSamples(off) * d.info.value.channels, skip);
        if stream.hz != d.info.value.hz || stream.layer != d.info.value.layer then now == []
        else if d.pcm != [] && s < |d.pcm| && stream.channels != d.info.value.channels then now == []
        else now == (if d.pcm != [] then d.pcm[s..] else []) + Yield(src, stream, d.state, off + d.bytes, skip - s)
  {
    hide Source.HeaderSamples;
    var d := src.decode(st, off);
    if d.info.Some? && d.pcm == [] {
      var s := Min(src.HeaderSamples(off) * d.info.value.channels, skip);
      var rest := Yield(src, stream, d.state, off + d.bytes, skip - s);
      assert [] + rest == rest;
    }
  }

  // ---------------------------------------------------------------- the states a reader goes through

  /** The state and offset after `n` calls of the decoder, each made where the one before has ended. */
  ghost function Steps<S(!new)>(src: Source<S>, st: S, off: nat, n: nat): (S, nat) {
    if n == 0 then (st, off) else
    var (before, at) := Steps(src, st, off, n - 1);
    (src.decode(before, at).state, at + src.decode(before, at).bytes)
  }

  ghost predicate Reaches<S(!new)>(src: Source<S>, st: S, off: nat, later: S, at: nat) {
    exists n: nat :: Steps(src, st, off, n) == (later, at)
  }

  ghost predicate Visits<S(!new)>(src: Source<S>, st: S, off: nat, later: S) {
    exists n: nat :: Steps(src, st, off, n).0 == later
  }

  lemma ReachesItself<S(!new)>(src: Source<S>, st: S, off: nat)
    ensures Reaches(src, st, off, st, off)
  {
    assert Steps(src, st, off, 0) == (st, off);
  }

  lemma ReachesFurther<S(!new)>(src: Source<S>, st: S, off: nat, later: S, at: nat)
    requires Reaches(src, st, off, later, at)
    ensures var d := src.decode(later, at);
      Reaches(src, st, off, d.state, at + d.bytes) && Visits(src, st, off, d.state)
  {
    var n: nat :| Steps(src, st, off, n) == (later, at);
    var m := n + 1;
    assert Steps(src, st, off, m).0 == src.decode(later, at).state;
  }

  lemma {:induction false} StepsAdd<S(!new)>(src: Source<S>, st: S, off: nat, later: S, at: nat, m: nat, n: nat)
    requires Steps(src, st, off, m) == (later, at)
    ensures Steps(src, st, off, m + n) == Steps(src, later, at, n)
    decreases n
  {
    if n > 0 {
      StepsAdd(src, st, off, later, at, m, n - 1);
      assert m + n - 1 == m + (n - 1);
    }
  }

  lemma ReachesOn<S(!new)>(src: Source<S>, st: S, off: nat, later: S, at: nat, last: S, end: nat)
    requires Reaches(src, st, off, later, at)
    ensures Reaches(src, later, at, last, end) ==> Reaches(src, st, off, last, end)
    ensures Visits(src, later, at, last) ==> Visits(src, st, off, last)
  {
    var m: nat :| Steps(src, st, off, m) == (later, at);
    if n: nat :| Steps(src, later, at, n) == (last, end) {
      StepsAdd(src, st, off, later, at, m, n);
      var k := m + n;
      assert Steps(src, st, off, k) == (last, end);
    }
    if n: nat :| Steps(src, later, at, n).0 == last {
      StepsAdd(src, st, off, later, at, m, n);
      var k := m + n;
      assert Steps(src, st, off, k).0 == last;
    }
  }

  function FirstOf<T>(s: seq<T>, n: nat): seq<T> { if n < |s| then s[..n] else s }

  function DropOf<T>(s: seq<T>, n: nat): seq<T> { if n < |s| then s[n..] else [] }

  /** Reading `m` and then `n` is reading `m + n`. */
  lemma ReadsConcatenate<T>(rest: seq<T>, m: nat, n: nat)
    ensures FirstOf(rest, m) + FirstOf(DropOf(rest, |FirstOf(rest, m)|), n) == FirstOf(rest, m + n)
    ensures DropOf(rest, |FirstOf(rest, m + n)|) ==
            DropOf(DropOf(rest, |FirstOf(rest, m)|), |FirstOf(DropOf(rest, |FirstOf(rest, m)|), n)|)
  {
    if m < |rest| {
      TakeMore(rest, m, n);
      TakeMore(rest, m, |FirstOf(rest[m..], n)|);
    } else {
      assert FirstOf(rest, m) == rest && DropOf(rest, |rest|) == [];
    }
  }

  lemma TakeNone<T>(rest: seq<T>)
    ensures FirstOf(rest, 0) == [] && DropOf(rest, 0) == rest
  {}

  lemma TakeMore<T>(rest: seq<T>, m: nat, n: nat)
    ensures FirstOf(rest, m) + FirstOf(DropOf(rest, m), n) == FirstOf(rest, m + n)
    ensures DropOf(DropOf(rest, m), n) == DropOf(rest, m + n)
  {}

  lemma TakeAll<T>(rest: seq<T>, m: nat, n: nat)
    requires m <= n && (m == n || DropOf(rest, m) == []) && |FirstOf(rest, m)| == m
    ensures FirstOf(rest, m) == FirstOf(rest, n) && m <= |rest|
  {}

  // ---------------------------------------------------------------- the index

  /**
   * hdr_frame_samples times the channels of the frame, which mp3dec_load_index counts for a frame it does not decode.
   */
  function Nominal(b: seq<Byte>, f: FrameRef): (n: nat)
    requires f.offset + HDR_SIZE <= |b|
    ensures n > 0
  {
    At(b, f.offset).FrameSamples() * At(b, f.offset).Channels()
  }

  /** The decoder state, the samples counted and whether a frame has given samples, before and after one more frame. */
  datatype Progress<S> = Progress(state: S, samples: nat, started: bool)

  /** Up to the 255th frame, frames are decoded until one gives samples; later ones count with their nominal length. */
  ghost function Probe<S(!new)>(src: Source<S>, fs: seq<FrameRef>, p: Progress<S>, k: nat): (q: Progress<S>)
    requires Indexed(src.b, fs) && k < |fs|
    ensures p.samples <= q.samples && (p.started ==> q.started)
  {
    if !p.started && k + 1 < MAX_PROBED then
      var d := src.decode(p.state, fs[k].offset);
      Progress(d.state, p.samples + |d.pcm|, d.pcm != [])
    else Progress(p.state, p.samples + Nominal(src.b, fs[k]), p.started)
  }

  /** The entries from frame `k` on. */
  ghost function IndexFrom<S(!new)>(src: Source<S>, fs: seq<FrameRef>, p: Progress<S>, k: nat): (index: seq<Entry>)
    requires Indexed(src.b, fs) && k <= |fs|
    ensures |index| == |fs| - k
    ensures forall j :: 0 <= j < |index| ==> index[j].offset == fs[k + j].offset
    decreases |fs| - k
  {
    if k == |fs| then [] else [Entry(p.samples, fs[k].offset)] + IndexFrom(src, fs, Probe(src, fs, p, k), k + 1)
  }

  /** The samples counted once every frame is indexed. */
  ghost function CountFrom<S(!new)>(src: Source<S>, fs: seq<FrameRef>, p: Progress<S>, k: nat): nat
    requires Indexed(src.b, fs) && k <= |fs|
    decreases |fs| - k
  {
    if k == |fs| then p.samples else CountFrom(src, fs, Probe(src, fs, p, k), k + 1)
  }

  /** The index built with a decoder in state `st`. */
  ghost function IndexWith<S(!new)>(src: Source<S>, fs: seq<FrameRef>, st: S): (index: seq<Entry>)
    requires Indexed(src.b, fs)
    ensures |index| == |fs|
    ensures forall j :: 0 <= j < |index| ==> index[j].offset == fs[j].offset
  {
    IndexFrom(src, fs, Progress(st, 0, false), 0)
  }

  ghost function CountWith<S(!new)>(src: Source<S>, fs: seq<FrameRef>, st: S): nat
    requires Indexed(src.b, fs)
  {
    CountFrom(src, fs, Progress(st, 0, false), 0)
  }

  /**
   * With `index` for the frames before `k`, what is still to be indexed makes up the index of a decoder in state
   * `first`.
   */
  ghost predicate IndexedSoFar<S(!new)>(src: Source<S>, fs: seq<FrameRef>, first: S, index: seq<Entry>,
                                        p: Progress<S>, k: nat)
    requires Indexed(src.b, fs) && k <= |fs|
  {
    IndexWith(src, fs, first) == index + IndexFrom(src, fs, p, k) &&
      CountWith(src, fs, first) == CountFrom(src, fs, p, k)
  }

  lemma NoneIndexed<S(!new)>(src: Source<S>, fs: seq<FrameRef>, st: S)
    requires Indexed(src.b, fs)
    ensures IndexedSoFar(src, fs, st, [], Progress(st, 0, false), 0)
  {
    hide IndexFrom, CountFrom;
  }

  lemma AllIndexed<S(!new)>(src: Source<S>, fs: seq<FrameRef>, first: S, index: seq<Entry>, p: Progress<S>)
    requires Indexed(src.b, fs) && IndexedSoFar(src, fs, first, index, p, |fs|)
    ensures index == IndexWith(src, fs, first) && p.samples == CountWith(src, fs, first)
  {}

  lemma OneMoreIndexed<S(!new)>(src: Source<S>, fs: seq<FrameRef>, first: S, index: seq<Entry>, p: Progress<S>, k: nat)
    requires Indexed(src.b, fs) && k < |fs| && IndexedSoFar(src, fs, first, index, p, k)
    ensures IndexedSoFar(src, fs, first, index + [Entry(p.samples, fs[k].offset)], Probe(src, fs, p, k), k + 1)
  {
    hide Indexed, Nominal, Probe;
  }

  /** The samples start at `samples` and do not decrease, and only 0 is repeated. */
  ghost predicate Grows(index: seq<Entry>, samples: nat) {
    (|index| > 0 ==> index[0].sample == samples) &&
    forall i, j :: 0 <= i < j < |index| ==>
      index[i].sample <= index[j].sample && (index[i].sample == index[j].sample ==> index[i].sample == 0)
  }

  lemma GrowsAtFront(e: Entry, rest: seq<Entry>, next: nat)
    requires Grows(rest, next) && (e.sample < next || e.sample == next == 0)
    ensures Grows([e] + rest, e.sample)
  {
    var index := [e] + rest;
    forall i, j | 0 <= i < j < |index|
      ensures index[i].sample <= index[j].sample && (index[i].sample == index[j].sample ==> index[i].sample == 0)
    {
      assert index[j] == rest[j - 1] && (i > 0 ==> index[i] == rest[i - 1]);
      assert j > 1 ==> rest[0].sample <= rest[j - 1].sample;
    }
  }

  /** Sample counts start where they are, grow from frame to frame once a frame has given samples, and are 0 before. */
  lemma {:induction false} IndexGrows<S(!new)>(src: Source<S>, fs: seq<FrameRef>, p: Progress<S>, k: nat)
    requires Indexed(src.b, fs) && k <= |fs|
    requires !p.started && k + 1 < MAX_PROBED ==> p.samples == 0
    ensures Grows(IndexFrom(src, fs, p, k), p.samples)
    decreases |fs| - k
  {
    hide Indexed, Probe;
    if k < |fs| {
      ProbeGrows(src, fs, p, k);
      var q := Probe(src, fs, p, k);
      IndexGrows(src, fs, q, k + 1);
      hide Grows;
      GrowsAtFront(Entry(p.samples, fs[k].offset), IndexFrom(src, fs, q, k + 1), q.samples);
    }
  }

  lemma ProbeGrows<S(!new)>(src: Source<S>, fs: seq<FrameRef>, p: Progress<S>, k: nat)
    requires Indexed(src.b, fs) && k < |fs|
    requires !p.started && k + 1 < MAX_PROBED ==> p.samples == 0
    ensures var q := Probe(src, fs, p, k);
      (p.samples < q.samples || p.samples == q.samples == 0) && (!q.started && k + 2 < MAX_PROBED ==> q.samples == 0)
  {
    hide Nominal;
  }

  /** The index is not built, or has an entry for each frame. */
  ghost predicate Covers(index: seq<Entry>, fs: seq<FrameRef>) {
    index == [] || (|index| == |fs| && forall j :: 0 <= j < |index| ==> index[j].offset == fs[j].offset)
  }

  /** The offsets of frames found one after the other increase. */
  ghost predicate Increasing(fs: seq<FrameRef>) {
    forall i, j :: 0 <= i < j < |fs| ==> fs[i].offset < fs[j].offset
  }

  /** The frames that iterating over a range finds are fit to be indexed. */
  lemma FramesAreIndexed(b: seq<Byte>, lo: nat)
    requires lo <= |b|
    ensures Indexed(b, Frames(b, lo)) && Increasing(Frames(b, lo))
  {
    hide Frames, NoFrameIn, FrameFits;
    var fs := Frames(b, lo);
    FramesPartition(b, lo);
    forall j: nat | j < |fs| ensures fs[j].End() <= |b| && fs[j].offset + HDR_SIZE <= |b| {
      FrameInside(b, lo, fs, j);
    }
    forall i, j | 0 <= i < j < |fs| ensures fs[i].offset < fs[j].offset {
      EndsGrow(b, lo, fs, i, j);
      FrameInside(b, lo, fs, i);
      FrameInside(b, lo, fs, j);
    }
  }

  lemma FrameInside(b: seq<Byte>, lo: nat, fs: seq<FrameRef>, j: nat)
    requires j < |fs| && FrameFits(b, lo, fs, j)
    ensures fs[j].End() <= |b| && fs[j].offset + HDR_SIZE <= |b|
    ensures fs[j].offset < fs[j].End() && PreviousEnd(fs, lo, j) <= fs[j].offset
  {
    hide Accepted, Header.Valid;
  }

  /** The index is fit for the binary search, whatever the decoder and its state. */
  lemma IndexIsWellFormed<S(!new)>(src: Source<S>, fs: seq<FrameRef>, st: S)
    requires Indexed(src.b, fs) && Increasing(fs)
    ensures WellFormed(IndexWith(src, fs, st)) && Covers(IndexWith(src, fs, st), fs)
  {
    hide IndexFrom;
    IndexGrows(src, fs, Progress(st, 0, false), 0);
  }

  // ---------------------------------------------------------------- where a seek restarts

  /**
   * The frame from which decoding restarts for the target `t`: two frames before it, and for Layer III further back.
   */
  ghost predicate RestartsAt(b: seq<Byte>, fs: seq<FrameRef>, layer: nat, t: nat, i: nat)
    requires Indexed(b, fs) && t < |fs|
  {
    var m := t - Min(t, MINIMP3_PREDECODE_FRAMES);
    if layer == 3 && t > 0 then BackFillStops(b, fs, i, m) else i == m
  }

  /** `skip` plus the samples of the leading frames whose samples the index does not count, saturating at INT_MAX. */
  ghost function WithLeading<S(!new)>(src: Source<S>, index: seq<Entry>, channels: nat, i: nat, skip: nat): (r: nat)
    requires skip <= INT_MAX
    ensures r <= INT_MAX
    decreases |index| - i
  {
    if i + 1 < |index| && index[i].sample == 0 && index[i + 1].sample == 0 then
      var n := src.HeaderSamples(index[i].offset) * channels;
      WithLeading(src, index, channels, i + 1, if skip + n > INT_MAX then INT_MAX else skip + n)
    else skip
  }

  /** The number of samples to drop when decoding restarts at frame `i` to reach `position`. */
  ghost function SkipFrom<S(!new)>(src: Source<S>, index: seq<Entry>, channels: nat, i: nat, position: nat): (r: nat)
    requires i < |index|
    ensures r <= INT_MAX
  {
    var skip := if position > index[i].sample then position - index[i].sample else 0;
    WithLeading(src, index, channels, i, Min(skip, INT_MAX))
  }

  lemma TargetInRange(index: seq<Entry>, position: nat, t: nat)
    requires IsTarget(index, position, t)
    ensures t < |index|
  {}

  lemma EntryInRange(b: seq<Byte>, fs: seq<FrameRef>, index: seq<Entry>, i: nat)
    requires Indexed(b, fs) && Covers(index, fs) && i < |index|
    ensures index[i].offset <= |b|
  {}

  /** What is left of a stream of known length, after `at` of its samples. */
  function CutTo<T>(rest: seq<T>, at: nat, length: nat): seq<T> {
    if length == 0 then rest else if at >= length then [] else FirstOf(rest, length - at)
  }

  lemma NothingRests<T>(rest: seq<T>, at: nat, length: nat)
    ensures rest == [] || (length > 0 && at >= length) ==> CutTo(rest, at, length) == []
  {}

  /** Handing out `n` samples from the front of a buffer, with more to come after the buffer. */
  lemma TakeFromBuffer<T>(buffer: seq<T>, from: nat, n: nat, more: seq<T>, at: nat, length: nat)
    requires from + n <= |buffer| && (length > 0 ==> at + n <= length && at < length)
    ensures FirstOf(CutTo(buffer[from..] + more, at, length), n) == buffer[from..from + n]
    ensures DropOf(CutTo(buffer[from..] + more, at, length), n) == CutTo(buffer[from + n..] + more, at + n, length)
  {
    var p := buffer[from..] + more;
    assert p[n..] == buffer[from + n..] + more && p[..n] == buffer[from..from + n];
  }

  // ---------------------------------------------------------------- the reader

  /** mp3dec_ex_t; the constant fields are set when the stream is opened. */
  class Mp3Ex<S(!new)> {
    const src: Source<S>
    const stream: Info
    const fs: seq<FrameRef>
    const startOffset: nat
    const startDelay: nat
    const detectedSamples: nat
    var mp3d: S
    var offset: nat
    var samples: nat
    var curSample: nat
    var buffer: seq<Sample>
    var bufferConsumed: nat
    var toSkip: nat
    var failed: bool
    var index: seq<Entry>
    var indexesBuilt: bool

    ghost predicate Valid()
      reads this
    {
      src.MakesProgress() && offset <= |src.b| && bufferConsumed <= |buffer| && toSkip <= INT_MAX
    }

    /** The index covers the frames of the stream. */
    ghost predicate IndexCovers()
      reads this`index, this`indexesBuilt
    {
      Indexed(src.b, fs) && Increasing(fs) && WellFormed(index) && Covers(index, fs) && (!indexesBuilt ==> index == [])
    }

    /** A stream opened without a scan: its length and delay come from the tag frame, if there is one. */
    constructor (src: Source<S>, stream: Info, fs: seq<FrameRef>, startOffset: nat, startDelay: nat,
                 detectedSamples: nat)
      requires src.MakesProgress() && startOffset <= |src.b| && startDelay <= INT_MAX
      requires Indexed(src.b, fs) && Increasing(fs)
      ensures Valid() && IndexCovers() && !failed && !indexesBuilt && curSample == 0
      ensures mp3d == src.initial && offset == startOffset && samples == detectedSamples
      ensures this.src == src && this.stream == stream && this.fs == fs && this.startOffset == startOffset
      ensures this.startDelay == startDelay && this.detectedSamples == detectedSamples
      ensures Pending() == Yield(src, stream, src.initial, startOffset, startDelay)
    {
      this.src, this.stream, this.fs, this.startOffset := src, stream, fs, startOffset;
      this.startDelay, this.detectedSamples := startDelay, detectedSamples;
      mp3d, offset, samples, curSample := src.initial, startOffset, detectedSamples, 0;
      buffer, bufferConsumed, toSkip, failed := [], 0, startDelay, false;
      index, indexesBuilt := [], false;
    }

    /** A stream without such a tag, scanned when it is opened. */
    constructor Scanned(src: Source<S>, stream: Info, fs: seq<FrameRef>, startOffset: nat)
      requires src.MakesProgress() && startOffset <= |src.b| && Indexed(src.b, fs) && Increasing(fs)
      ensures Valid() && IndexCovers() && !failed && indexesBuilt && curSample == 0
      ensures this.src == src && this.stream == stream && this.fs == fs && this.startOffset == startOffset
      ensures startDelay == 0 && detectedSamples == 0
      ensures index == IndexWith(src, fs, src.initial)
      ensures samples == CountWith(src, fs, src.initial)
      ensures Pending() == Yield(src, stream, src.initial, startOffset, 0)
    {
      this.src, this.stream, this.fs, this.startOffset := src, stream, fs, startOffset;
      startDelay, detectedSamples := 0, 0;
      mp3d, offset, curSample := src.initial, startOffset, 0;
      buffer, bufferConsumed, toSkip, failed := [], 0, 0, false;
      index, indexesBuilt := [], true;
      new;
      hide IndexWith, CountWith, Indexed, Increasing, Yield, WellFormed, Covers;
      IndexIsWellFormed(src, fs, src.initial);
      BuildIndex();
      mp3d := src.initial;
    }

    /** mp3dec_load_index called for every frame. */
    method BuildIndex()
      requires src.MakesProgress() && Indexed(src.b, fs) && index == []
      modifies this`mp3d, this`samples, this`index
      ensures index == IndexWith(src, fs, old(mp3d))
      ensures samples == CountWith(src, fs, old(mp3d))
    {
      hide IndexWith, CountWith, Indexed, Nominal, Source.MakesProgress, IndexedSoFar;
      samples := 0;
      var started, k := false, 0;
      NoneIndexed(src, fs, mp3d);
      while k < |fs|
        invariant k == |index| <= |fs|
        invariant IndexedSoFar(src, fs, old(mp3d), index, Progress(mp3d, samples, started), k)
      {
        OneMoreIndexed(src, fs, old(mp3d), index, Progress(mp3d, samples, started), k);
        index := index + [Entry(samples, fs[k].offset)];
        if !started && |index| < MAX_PROBED {
          var d := src.decode(mp3d, fs[k].offset);
          mp3d, started := d.state, d.pcm != [];
          samples := samples + |d.pcm|;
        } else {
          samples := samples + FrameCount(k);
        }
        k := k + 1;
      }
      AllIndexed(src, fs, old(mp3d), index, Progress(mp3d, samples, started));
    }

    function FrameCount(k: nat): nat
      requires Indexed(src.b, fs) && k < |fs|
    {
      Nominal(src.b, fs[k])
    }

    /** mp3dec_ex_seek in byte mode: the next read starts at `position`, or at the end of the file. */
    method SeekToByte(position: nat, fileSize: nat)
      requires src.MakesProgress() && toSkip <= INT_MAX
      modifies this`mp3d, this`offset, this`buffer, this`bufferConsumed, this`failed, this`curSample
      ensures offset == Min(position, fileSize) && curSample == 0
      ensures Valid() <==> Min(position, fileSize) <= |src.b|
      ensures Valid() ==> Pending() == Yield(src, stream, src.initial, offset, toSkip)
    {
      offset, curSample := Min(position, fileSize), 0;
      buffer, bufferConsumed, failed, mp3d := [], 0, false, src.initial;
    }

    /**
     * mp3dec_ex_seek in sample mode: the target `p` is the position, cut to a length that is known, plus the start
     * delay, saturating on 64 bits; `t` is the frame that holds it and `i` the frame decoding restarts from. The
     * decoder may be in any state; only a missing index is built with it as it is.
     */
    method SeekToSample(position: nat) returns (ghost p: nat, ghost t: nat, ghost i: nat)
      requires Valid() && IndexCovers() && startOffset <= |src.b| && startDelay <= UINT64_MAX && position <= UINT64_MAX
      modifies this
      ensures Valid() && IndexCovers() && !failed
      ensures curSample == if old(samples) > 0 then Min(position, old(samples)) else position
      ensures p == Min(curSample + startDelay, 0xFFFF_FFFF_FFFF_FFFF) && toSkip <= 0x7FFF_FFFF
      ensures index == if old(indexesBuilt) || p == 0 then old(index) else IndexWith(src, fs, old(mp3d))
      ensures indexesBuilt == (old(indexesBuilt) || p > 0)
      ensures samples == if indexesBuilt == old(indexesBuilt) then old(samples) else detectedSamples
      ensures p == 0 || index == [] ==> Pending() == Yield(src, stream, src.initial, startOffset, 0)
      ensures p > 0 && index != [] ==>
                IsTarget(index, p, t) && t < |fs| && RestartsAt(src.b, fs, stream.layer, t, i) && i < |index| &&
                Pending() == Yield(src, stream, src.initial, index[i].offset,
                                   SkipFrom(src, index, stream.channels, i, p))
    {
      hide Yield, IndexWith, CountWith, Increasing, Indexed, WellFormed, Covers, IsTarget, RestartsAt, SkipFrom;
      var q := if samples > 0 && position > samples then samples else position;
      curSample := q;
      q := if q > UINT64_MAX - startDelay then UINT64_MAX else q + startDelay;
      p, t, i := q, 0, 0;
      offset, toSkip := startOffset, 0;
      if q > 0 {
        if !indexesBuilt {
          indexesBuilt := true;
          IndexIsWellFormed(src, fs, mp3d);
          BuildIndex();
          samples := detectedSamples;
        }
        if index != [] {
          t, i := Restart(q);
        }
      }
      buffer, bufferConsumed, failed, mp3d := [], 0, false, src.initial;
    }

    /** The part of the seek that uses the index. */
    method Restart(p: nat) returns (ghost t: nat, ghost i: nat)
      requires IndexCovers() && index != [] && p > 0
      modifies this`offset, this`toSkip
      ensures IsTarget(index, p, t) && t < |fs| && i < |index| && RestartsAt(src.b, fs, stream.layer, t, i)
      ensures offset == index[i].offset <= |src.b| && toSkip == SkipFrom(src, index, stream.channels, i, p)
    {
      hide Increasing, Indexed, WellFormed, IsTarget, RestartsAt, WithLeading;
      var target := BinarySearch(index, p);
      TargetInRange(index, p, target);
      var at := ChooseStart(target);
      t, i := target, at;
      EntryInRange(src.b, fs, index, at);
      offset := index[at].offset;
      toSkip := if p > index[at].sample then Min(p - index[at].sample, INT_MAX) else 0;
      toSkip := AddLeading(at, toSkip);
    }

    /** Two frames before the target, and for Layer III as far back as the reservoir needs. */
    method ChooseStart(target: nat) returns (at: nat)
      requires Indexed(src.b, fs) && target < |fs|
      ensures RestartsAt(src.b, fs, stream.layer, target, at) && at <= target
      ensures stream.layer != 3 ==> at == if target >= 2 then target - 2 else 0
      ensures at + 2 <= target || at == 0
    {
      hide Indexed, Fill, SideInfoFails;
      at := target;
      if at > 0 {
        at := at - Min(at, MINIMP3_PREDECODE_FRAMES);
        if stream.layer == 3 {
          var gr := new GrInfo[4](_ => NO_GRANULE);
          at := BackFill(src.b, fs, at, gr);
        }
      }
    }

    /** The loop over the leading frames whose samples the index does not count. */
    method AddLeading(start: nat, already: nat) returns (skip: nat)
      requires start < |index| && already <= INT_MAX
      ensures skip == WithLeading(src, index, stream.channels, start, already)
    {
      var at := start;
      skip := already;
      while at + 1 < |index| && index[at].sample == 0 && index[at + 1].sample == 0
        invariant at < |index| && skip <= INT_MAX
        invariant WithLeading(src, index, stream.channels, at, skip)
               == WithLeading(src, index, stream.channels, start, already)
        decreases |index| - at
      {
        var n := src.HeaderSamples(index[at].offset) * stream.channels;
        skip := if skip > INT_MAX - n then INT_MAX else skip + n;
        at := at + 1;
      }
    }

    /** Reading since state `st` at `off` has called the decoder for one frame after the other. */
    ghost predicate CameFrom(st: S, off: nat, wasFailed: bool)
      reads this
    {
      if wasFailed then failed && mp3d == st
      else if failed then Visits(src, st, off, mp3d)
      else Reaches(src, st, off, mp3d, offset)
    }

    /** What later reads would give if the stream length were not known. */
    ghost function Pending(): seq<Sample>
      requires Valid()
      reads this
    {
      if failed then [] else buffer[bufferConsumed..] + Yield(src, stream, mp3d, offset, toSkip)
    }

    /** What later reads give: a known length cuts the padding. */
    ghost function Rest(): seq<Sample>
      requires Valid()
      reads this
    {
      CutTo(Pending(), curSample, detectedSamples)
    }

    /**
     * One round of the loop below: the next frame is decoded and samples are dropped from it, or counted as dropped.
     */
    method DecodeNext(fi: Info) returns (fi': Info)
      requires Valid() && !failed && bufferConsumed == |buffer| && offset < |src.b|
      modifies this`mp3d, this`offset, this`buffer, this`bufferConsumed, this`toSkip, this`failed
      ensures Valid() && Pending() == old(Pending())
      ensures !failed ==> offset > old(offset)
      ensures var d := src.decode(old(mp3d), old(offset));
        mp3d == d.state && (!failed ==> offset == old(offset) + d.bytes)
    {
      hide Source.HeaderSamples, Yield, Source.MakesProgress;
      YieldNext(src, stream, mp3d, offset, toSkip);
      forall n: nat { YieldEnds(src, stream, src.decode(mp3d, offset).state, n); }
      fi' := fi;
      var d := src.decode(mp3d, offset);
      mp3d, buffer, bufferConsumed := d.state, d.pcm, 0;
      if d.info.Some? {
        fi' := d.info.value;
      }
      if !SameKind(stream, fi') {
        failed := true;
        return;
      }
      if |buffer| > 0 {
        if toSkip > 0 {
          var s := Min(|buffer|, toSkip);
          bufferConsumed := bufferConsumed + s;
          toSkip := toSkip - s;
        }
        if bufferConsumed != |buffer| && stream.channels != fi'.channels {
          failed := true;
          return;
        }
      } else if toSkip > 0 {
        var lost := src.HeaderSamples(offset) * fi'.channels;
        toSkip := toSkip - Min(lost, toSkip);
      }
      offset := offset + d.bytes;
    }

    /** Decodes until the buffer holds samples to hand out; `fi` is the frame info variable of the caller. */
    method Refill(fi: Info) returns (more: bool, fi': Info)
      requires Valid() && !failed
      modifies this`mp3d, this`offset, this`buffer, this`bufferConsumed, this`toSkip, this`failed
      ensures Valid() && Pending() == old(Pending())
      ensures more ==> bufferConsumed < |buffer| && !failed
      ensures !more ==> Pending() == [] && (failed || bufferConsumed == |buffer|)
      ensures CameFrom(old(mp3d), old(offset), false)
    {
      hide Yield, Source.MakesProgress;
      fi' := fi;
      ReachesItself(src, mp3d, offset);
      while bufferConsumed == |buffer|
        invariant Valid() && !failed
        invariant Reaches(src, old(mp3d), old(offset), mp3d, offset)
        invariant Pending() == old(Pending())
        decreases |src.b| - offset, |buffer| - bufferConsumed
      {
        if offset == |src.b| {
          YieldEnds(src, stream, mp3d, toSkip);
          return false, fi';
        }
        ReachesFurther(src, old(mp3d), old(offset), mp3d, offset);
        fi' := DecodeNext(fi');
        if failed {
          return false, fi';
        }
      }
      more := true;
    }

    /** mp3dec_ex_read_frame: the next samples of the current frame, at most `max`. */
    method ReadFrame(fi: Info, max: nat) returns (out: seq<Sample>, fi': Info)
      requires Valid()
      modifies this`mp3d, this`offset, this`buffer, this`bufferConsumed, this`toSkip, this`failed, this`curSample
      ensures Valid() && |out| <= max && out == FirstOf(old(Rest()), |out|)
      ensures Rest() == DropOf(old(Rest()), |out|) && curSample == old(curSample) + |out|
      ensures max > 0 && out == [] ==> old(Rest()) == []
      ensures |out| < max ==>
                bufferConsumed == |buffer| || failed || (detectedSamples > 0 && curSample >= detectedSamples)
      ensures CameFrom(old(mp3d), old(offset), old(failed))
    {
      hide Yield, CutTo, FirstOf, DropOf, Reaches, Visits;
      ReachesItself(src, mp3d, offset);
      out, fi' := [], fi;
      TakeNone(Rest());
      NothingRests(Pending(), curSample, detectedSamples);
      if detectedSamples > 0 && curSample >= detectedSamples {
        return;
      }
      if failed {
        return;
      }
      var more;
      more, fi' := Refill(fi);
      if !more {
        return;
      }
      var n := Min(|buffer| - bufferConsumed, max);
      if detectedSamples > 0 {
        if curSample + n >= detectedSamples {
          n := detectedSamples - curSample;
        }
      }
      TakeFromBuffer(buffer, bufferConsumed, n, Yield(src, stream, mp3d, offset, toSkip), curSample, detectedSamples);
      curSample := curSample + n;
      out := buffer[bufferConsumed..bufferConsumed + n];
      bufferConsumed := bufferConsumed + n;
    }

    /** mp3dec_ex_read: as many samples as asked for, or all that are left. */
    method Read(n: nat) returns (out: seq<Sample>)
      requires Valid()
      modifies this`mp3d, this`offset, this`buffer, this`bufferConsumed, this`toSkip, this`failed, this`curSample
      ensures Valid() && out == FirstOf(old(Rest()), n)
      ensures Rest() == DropOf(old(Rest()), |out|) && curSample == old(curSample) + |out|
      ensures |out| < n ==> Rest() == []
      ensures detectedSamples > 0 && old(curSample) <= detectedSamples ==> curSample <= detectedSamples
      ensures CameFrom(old(mp3d), old(offset), old(failed))
    {
      hide Mp3Ex.Rest, FirstOf, DropOf, Reaches, Visits;
      var fi := Info(0, 0, 0);
      ghost var rest := Rest();
      RestWithinLength();
      TakeNone(rest);
      ReachesItself(src, mp3d, offset);
      out := [];
      while |out| < n
        invariant Valid() && |out| <= n
        invariant out == FirstOf(rest, |out|) && Rest() == DropOf(rest, |out|)
        invariant curSample == old(curSample) + |out|
        invariant CameFrom(old(mp3d), old(offset), old(failed))
        decreases n - |out|
      {
        var part;
        ghost var st, off, was := mp3d, offset, failed;
        part, fi := ReadFrame(fi, n - |out|);
        if !was { ReachesOn(src, old(mp3d), old(offset), st, off, mp3d, offset); }
        TakeMore(rest, |out|, |part|);
        if |part| == 0 {
          break;
        }
        out := out + part;
      }
      TakeAll(rest, |out|, n);
    }

    lemma RestWithinLength()
      requires Valid()
      ensures detectedSamples > 0 && curSample <= detectedSamples ==> |Rest()| <= detectedSamples - curSample
    {
      hide Yield;
    }
  }

  /** Two readers with the same samples left: one reads `m` and then `n` samples, the other `m + n` at once. */
  method ReadInTwo<S(!new)>(a: Mp3Ex<S>, b: Mp3Ex<S>, m: nat, n: nat)
    returns (x: seq<Sample>, y: seq<Sample>, z: seq<Sample>)
    requires a != b && a.Valid() && b.Valid() && a.Rest() == b.Rest()
    modifies a, b
    ensures a.Valid() && b.Valid() && x + y == z && a.Rest() == b.Rest()
  {
    hide Mp3Ex.Rest, Mp3Ex.CameFrom, FirstOf, DropOf;
    ReadsConcatenate(a.Rest(), m, n);
    x := a.Read(m);
    y := a.Read(n);
    z := b.Read(m + n);
  }
}
