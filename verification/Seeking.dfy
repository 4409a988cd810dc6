/** Why a seek in sample mode is accurate: the restarted decoder against the run from the start of the stream. */
module Seeking {
  import opened Bits
  import opened Header
  import opened SideInfo
  import opened Sync
  import opened Reservoir
  import opened Decoder
  import opened Index
  import opened Player
  import opened Wrappers

  // ---------------------------------------------------------------- a complete decoder

  /** The signal processing, seen as a deterministic function of its own state, the frame and the main data. */
  datatype Dsp<!D(!new)> = Dsp(
    zero: D,
    step: (D, seq<Byte>, seq<Byte>) -> D,
    pcm: (D, seq<Byte>, seq<Byte>) -> seq<Sample>)

  /** Overlap and filter bank hold nothing older than the last two frames. */
  ghost predicate TwoFrameMemory<D(!new)>(dsp: Dsp<D>) {
    forall d, e, x, mx, y, my :: dsp.step(dsp.step(d, x, mx), y, my) == dsp.step(dsp.step(e, x, mx), y, my)
  }

  /**
   * The bytes of a stream, the frames taken from it, the places among them of those that an index lists, and the
   * decoders.
   */
  datatype Setting<!D(!new)> = Setting(b: seq<Byte>, fs: seq<FrameRef>, ix: seq<nat>, l12: Layer12, dsp: Dsp<D>)

  datatype Full<D> = Full(dec: State, dsp: D)

  function FrameOf(b: seq<Byte>, f: FrameRef): seq<Byte>
    requires f.End() <= |b|
  {
    b[f.offset..f.End()]
  }

  /** The main data a Layer III frame is decoded from. */
  ghost function MainOf(b: seq<Byte>, f: FrameRef, r: seq<Byte>): seq<Byte>
    requires f.End() <= |b| && f.offset + HDR_SIZE <= |b|
  {
    if At(b, f.offset).Layer() == 3 && UnitOf(b, f).Usable? then MainData(r, UnitOf(b, f).frame) else []
  }

  /** mp3dec_decode_frame with its signal processing; a reset clears both parts of the state. */
  ghost function FullDecode<D(!new)>(s: Setting<D>, st: Full<D>, off: nat): Decoded<Full<D>> {
    if off > |s.b| then Decoded(st, 0, [], None, 0) else
    var f, o := Located(st.dec, s.b, off), Decode(st.dec, s.b, off, s.l12);
    if f.None? then Decoded(Full(Fresh, s.dsp.zero), |s.b| - off, [], None, 0) else
    var h, frame := At(s.b, f.value.offset), FrameOf(s.b, f.value);
    var on := Continuation(st.dec, s.b, off).Some?;
    var d, main := if on then st.dsp else s.dsp.zero, MainOf(s.b, f.value, if on then st.dec.reservoir else []);
    Decoded(
      Full(o.state, if o.state.Fresh? then s.dsp.zero else if o.decoded then s.dsp.step(d, frame, main) else d),
      f.value.End() - off,
      if o.decoded then s.dsp.pcm(d, frame, main) else [],
      Some(Info(h.Channels(), h.SampleRateHz(), h.Layer())),
      h.BitrateKbps())
  }

  /** The code of mp3dec_decode_frame does this: bytes, state, what is reported of the frame, and when it decodes. */
  method DecodePerforms<D(!new)>(dec: Mp3Dec, ghost s: Setting<D>, ghost st: Full<D>, b: seq<Byte>, off: nat,
                                 l12: Layer12, gr: array<GrInfo>)
    returns (samples: nat, frameBytes: nat, info: Option<FrameInfo>)
    requires dec.Valid() && dec.State() == st.dec && off <= |b| && gr.Length >= 4 && s.b == b && s.l12 == l12
    modifies dec, dec.store, dec.store.reservBuf, dec.store.maindata, gr
    ensures var d := FullDecode(s, st, off);
      dec.Valid() && dec.State() == d.state.dec && frameBytes == d.bytes && (info.None? <==> d.info.None?)
    ensures samples > 0 <==> Decode(st.dec, b, off, l12).decoded
    ensures samples == 0 ==> FullDecode(s, st, off).pcm == []
    ensures info.Some? ==>
              var (d, i) := (FullDecode(s, st, off), info.value);
              d.info == Some(Info(i.channels, i.hz, i.layer)) && d.kbps == i.bitrateKbps &&
              off + i.frameOffset + HDR_SIZE <= |b| &&
              (samples > 0 ==> samples == At(b, off + i.frameOffset).FrameSamples())
  {
    hide Located, Decode, Continuation, MainOf, Header.Valid;
    LocatedNone(st.dec, b, off, l12);
    samples, frameBytes, info := dec.DecodeFrame(b, off, l12, gr);
  }

  lemma LocatedNone(st: State, b: seq<Byte>, off: nat, l12: Layer12)
    requires off <= |b|
    ensures Located(st, b, off).None? ==> Decode(st, b, off, l12) == Outcome(Fresh, false)
  {}

  ghost function SourceOf<D(!new)>(s: Setting<D>): Source<Full<D>> {
    Source(s.b, Full(Fresh, s.dsp.zero), (st, off) => FullDecode(s, st, off))
  }

  lemma SourceMakesProgress<D(!new)>(s: Setting<D>)
    ensures SourceOf(s).MakesProgress()
  {
    hide Located, Decode, Continuation, MainOf;
  }

  lemma SourceDecodes<D(!new)>(s: Setting<D>, st: Full<D>, off: nat)
    ensures SourceOf(s).decode(st, off) == FullDecode(s, st, off) && SourceOf(s).b == s.b
  {}

  // ---------------------------------------------------------------- runs

  ghost function UnitsOf<D(!new)>(s: Setting<D>): (us: seq<Unit>)
    requires Taken(s.b, s.fs, s.l12)
    ensures |us| == |s.fs| && ValidUnits(us)
  {
    Units(s.b, s.fs, s.l12)
  }

  ghost function MainAt<D(!new)>(s: Setting<D>, i: nat, k: nat): seq<Byte>
    requires Taken(s.b, s.fs, s.l12) && i <= k < |s.fs|
  {
    MainOf(s.b, s.fs[k], Run(UnitsOf(s), i, k))
  }

  /**
   * The signal processing state that frame `k` is decoded with when decoding starts at frame `i`; it is clear after a
   * reset.
   */
  ghost function DspAt<D(!new)>(s: Setting<D>, i: nat, k: nat): D
    requires Taken(s.b, s.fs, s.l12) && i <= k <= |s.fs|
    decreases k, 1
  {
    if k == i || !UnitsOf(s)[k - 1].Usable? then s.dsp.zero else DspLeft(s, i, k)
  }

  /** What the frame before `k` leaves. */
  ghost function DspLeft<D(!new)>(s: Setting<D>, i: nat, k: nat): D
    requires Taken(s.b, s.fs, s.l12) && i < k <= |s.fs|
    decreases k, 0
  {
    if DecodesAt(UnitsOf(s), i, k - 1) then
      s.dsp.step(DspAt(s, i, k - 1), FrameOf(s.b, s.fs[k - 1]), MainAt(s, i, k - 1))
    else DspAt(s, i, k - 1)
  }

  /** The decoder before frame `k` in that run. */
  ghost function FullAt<D(!new)>(s: Setting<D>, i: nat, k: nat): Full<D>
    requires Taken(s.b, s.fs, s.l12) && i <= k <= |s.fs|
  {
    Full(StateOfRun(s.b, s.fs, s.l12, i, k),
         if k == i || UnitsOf(s)[k - 1].Corrupt? then s.dsp.zero else DspLeft(s, i, k))
  }

  /** The samples of frame `k` in that run. */
  ghost function PcmAt<D(!new)>(s: Setting<D>, i: nat, k: nat): seq<Sample>
    requires Taken(s.b, s.fs, s.l12) && i <= k < |s.fs|
  {
    if DecodesAt(UnitsOf(s), i, k) then s.dsp.pcm(DspAt(s, i, k), FrameOf(s.b, s.fs[k]), MainAt(s, i, k)) else []
  }

  /**
   * The frames share channels, rate, layer and, in a free-format stream, their length; each decoded frame gives its
   * nominal number of samples.
   */
  ghost predicate Uniform<D(!new)>(s: Setting<D>, stream: Info) {
    Taken(s.b, s.fs, s.l12) &&
    (forall j :: 0 <= j < |s.fs| ==> OfKind(s.b, s.fs[j], stream) && s.fs[j].freeFormat == s.fs[0].freeFormat) &&
    (forall d, j, m {:trigger s.dsp.pcm(d, FrameOf(s.b, s.fs[j]), m)} :: 0 <= j < |s.fs| ==>
       |s.dsp.pcm(d, FrameOf(s.b, s.fs[j]), m)| == Nominal(s.b, s.fs[j]))
  }

  ghost predicate OfKind(b: seq<Byte>, f: FrameRef, stream: Info) {
    HeaderAt(b, f.offset) &&
    var h := At(b, f.offset); stream == Info(h.Channels(), h.SampleRateHz(), h.Layer())
  }

  /** One call of the complete decoder. */
  lemma OneFullDecode<D(!new)>(s: Setting<D>, i: nat, k: nat)
    requires Taken(s.b, s.fs, s.l12) && i <= k < |s.fs| && Found(s.b, s.fs[i])
    ensures HeaderAt(s.b, s.fs[k].offset) && CalledAt(s.fs, i, k) < s.fs[k].End() <= |s.b|
    ensures var h := At(s.b, s.fs[k].offset);
      FullDecode(s, FullAt(s, i, k), CalledAt(s.fs, i, k))
        == Decoded(FullAt(s, i, k + 1), s.fs[k].End() - CalledAt(s.fs, i, k), PcmAt(s, i, k),
                   Some(Info(h.Channels(), h.SampleRateHz(), h.Layer())), h.BitrateKbps())
  {
    hide Header.BitrateKbps, Located, Decode, Continuation, MainOf, DecodesAt, Run, Taken, Found, StateOfRun,
      CalledAt, DspLeft;
    OneDecode(s.b, s.fs, s.l12, i, k);
    LocatedInRun(s.b, s.fs, s.l12, i, k);
    StateBefore(s, i, k);
    StateAfter(s, i, k);
    TakenFrame(s.b, s.fs, s.l12, k);
    CalledBefore(s, i, k);
  }

  lemma CalledBefore<D(!new)>(s: Setting<D>, i: nat, k: nat)
    requires Taken(s.b, s.fs, s.l12) && i <= k < |s.fs|
    ensures CalledAt(s.fs, i, k) <= s.fs[k].offset < s.fs[k].End() <= |s.b|
  {
    hide Taken, HeaderAt, FrameSize, Follows;
    TakenFrame(s.b, s.fs, s.l12, k);
  }

  /** A decoder that does not continue has nothing in its reservoir and its filters. */
  lemma StateBefore<D(!new)>(s: Setting<D>, i: nat, k: nat)
    requires Taken(s.b, s.fs, s.l12) && i <= k < |s.fs|
    ensures var going := k > i && UnitsOf(s)[k - 1].Usable?;
      var st := StateOfRun(s.b, s.fs, s.l12, i, k);
      if going then st.Ready? && st.reservoir == Run(UnitsOf(s), i, k) && FullAt(s, i, k).dsp == DspAt(s, i, k)
      else Run(UnitsOf(s), i, k) == [] && DspAt(s, i, k) == s.dsp.zero
  {
    hide Taken, After, DspLeft;
  }

  lemma StateAfter<D(!new)>(s: Setting<D>, i: nat, k: nat)
    requires Taken(s.b, s.fs, s.l12) && i <= k < |s.fs|
    ensures StateOfRun(s.b, s.fs, s.l12, i, k + 1).Fresh? <==> UnitsOf(s)[k].Corrupt?
    ensures UnitsOf(s)[k].Corrupt? ==> !DecodesAt(UnitsOf(s), i, k) && FullAt(s, i, k + 1).dsp == s.dsp.zero
    ensures !UnitsOf(s)[k].Corrupt? ==>
              FullAt(s, i, k + 1).dsp == if DecodesAt(UnitsOf(s), i, k)
                                         then s.dsp.step(DspAt(s, i, k), FrameOf(s.b, s.fs[k]), MainAt(s, i, k))
                                         else DspAt(s, i, k)
  {
    hide Taken, After, Run;
  }

  // ---------------------------------------------------------------- what a run yields

  /** No bytes are skipped before frame `k`. */
  predicate Touches(fs: seq<FrameRef>, k: nat)
    requires 0 < k < |fs|
  {
    fs[k - 1].End() == fs[k].offset
  }

  /** Decoded from the start, exactly the frames from `f` on give samples, and up to there no bytes are skipped. */
  ghost predicate Plays<D(!new)>(s: Setting<D>, f: nat)
    requires Taken(s.b, s.fs, s.l12)
  {
    f <= |s.fs| && DecodesFrom(UnitsOf(s), f) && forall k :: 0 < k <= f && k < |s.fs| ==> Touches(s.fs, k)
  }

  /** The nominal samples of frame `k`. */
  ghost function Count<D(!new)>(s: Setting<D>, k: nat): (n: nat)
    requires Taken(s.b, s.fs, s.l12) && k < |s.fs|
    ensures n > 0
  {
    Nominal(s.b, s.fs[k])
  }

  /** What is read from frame `k` on in the run from `i`, after dropping `skip` samples. */
  ghost function YieldAt<D(!new)>(s: Setting<D>, i: nat, k: nat, skip: nat): seq<Sample>
    requires Taken(s.b, s.fs, s.l12) && i <= k <= |s.fs|
    decreases |s.fs| - k
  {
    if k == |s.fs| then [] else Kept(s, i, k, skip) + YieldAt(s, i, k + 1, skip - Dropped(s, i, k, skip))
  }

  /** How much of `skip` frame `k` uses up: its samples, or its nominal count if it does not decode. */
  ghost function Dropped<D(!new)>(s: Setting<D>, i: nat, k: nat, skip: nat): (n: nat)
    requires Taken(s.b, s.fs, s.l12) && i <= k < |s.fs|
    ensures n <= skip
  {
    Min(if PcmAt(s, i, k) != [] then |PcmAt(s, i, k)| else Count(s, k), skip)
  }

  ghost function Kept<D(!new)>(s: Setting<D>, i: nat, k: nat, skip: nat): seq<Sample>
    requires Taken(s.b, s.fs, s.l12) && i <= k < |s.fs|
  {
    if PcmAt(s, i, k) != [] then PcmAt(s, i, k)[Dropped(s, i, k, skip)..] else []
  }

  /** One frame of a stream whose frames are all of one kind. */
  lemma YieldStep<S(!new)>(src: Source<S>, stream: Info, st: S, off: nat, skip: nat)
    requires src.MakesProgress() && off < |src.b| && src.decode(st, off).info == Some(stream)
    ensures var d := src.decode(st, off);
      var n := Min(if d.pcm != [] then |d.pcm| else src.HeaderSamples(off) * stream.channels, skip);
      Yield(src, stream, st, off, skip)
        == (if d.pcm != [] then d.pcm[n..] else []) + Yield(src, stream, d.state, off + d.bytes, skip - n)
  {
    hide Source.HeaderSamples;
    var d := src.decode(st, off);
    var lost := src.HeaderSamples(off) * stream.channels;
    if |d.pcm| == 0 {
      var rest := Yield(src, stream, d.state, off + d.bytes, skip - Min(lost, skip));
      assert [] + rest == rest;
    }
  }

  /** A frame behind skipped bytes decodes, so that the samples counted for a frame are those of its own header. */
  lemma CountedInPlace<D(!new)>(s: Setting<D>, stream: Info, f: nat, i: nat, k: nat)
    requires Uniform(s, stream) && Plays(s, f) && i <= k < |s.fs|
    ensures PcmAt(s, i, k) == [] ==> SourceOf(s).HeaderSamples(CalledAt(s.fs, i, k)) * stream.channels == Count(s, k)
  {
    hide Find, HeaderAt, FrameSize, Follows, Taken, Header.SampleRateHz, DecodesAt, PcmAt, DecodesFrom, UnitsOf,
      Nominal, TakenAt;
    UniformIsTaken(s, stream);
    TakenFrame(s.b, s.fs, s.l12, k);
    if k == i || Touches(s.fs, k) {
      NominalAtHeader(s, stream, k);
    } else {
      DecodesBehindGap(s, f, i, k);
      PcmLength(s, stream, i, k);
    }
  }

  lemma NominalAtHeader<D(!new)>(s: Setting<D>, stream: Info, k: nat)
    requires Uniform(s, stream) && k < |s.fs|
    ensures SourceOf(s).HeaderSamples(s.fs[k].offset) * stream.channels == Count(s, k)
  {
    hide Find, TakenAt, Header.SampleRateHz, Header.Valid;
  }

  lemma DecodesBehindGap<D(!new)>(s: Setting<D>, f: nat, i: nat, k: nat)
    requires Taken(s.b, s.fs, s.l12) && Plays(s, f) && i < k < |s.fs| && !Touches(s.fs, k)
    ensures !UnitsOf(s)[k - 1].Usable? && f <= k && DecodesAt(UnitsOf(s), i, k)
  {
    hide Taken, Stands, UnitAt, Header.Compare, DecodesFrom, Behind, Continuation, Units;
    TakenFrame(s.b, s.fs, s.l12, k);
    UnitsAre(s.b, s.fs, s.l12, k - 1);
    RunStep(UnitsOf(s), i, k);
    RunStep(UnitsOf(s), 0, k);
    DecodesLater(UnitsOf(s), f, k);
  }

  lemma OneFrameOfRun<D(!new)>(s: Setting<D>, stream: Info, f: nat, i: nat, k: nat, skip: nat)
    requires Uniform(s, stream) && Plays(s, f) && i <= k < |s.fs| && Found(s.b, s.fs[i])
    ensures SourceOf(s).MakesProgress()
    ensures Yield(SourceOf(s), stream, FullAt(s, i, k), CalledAt(s.fs, i, k), skip)
         == Kept(s, i, k, skip) +
            Yield(SourceOf(s), stream, FullAt(s, i, k + 1), CalledAt(s.fs, i, k + 1), skip - Dropped(s, i, k, skip))
  {
    hide FullDecode, FullAt, PcmAt, Taken, Uniform, SourceOf, Source.MakesProgress, Source.HeaderSamples, Nominal,
      Yield, Plays, Found, HeaderAt;
    SourceMakesProgress(s);
    UniformIsTaken(s, stream);
    KindOfFrame(s, stream, k);
    SourceDecodes(s, FullAt(s, i, k), CalledAt(s.fs, i, k));
    OneFullDecode(s, i, k);
    CountedInPlace(s, stream, f, i, k);
    YieldStep(SourceOf(s), stream, FullAt(s, i, k), CalledAt(s.fs, i, k), skip);
  }

  lemma KindOfFrame<D(!new)>(s: Setting<D>, stream: Info, k: nat)
    requires Uniform(s, stream) && k < |s.fs|
    ensures OfKind(s.b, s.fs[k], stream) && s.fs[k].freeFormat == s.fs[0].freeFormat
  {}

  lemma RunEnds<D(!new)>(s: Setting<D>, i: nat)
    requires Taken(s.b, s.fs, s.l12) && i < |s.fs|
    ensures CalledAt(s.fs, i, |s.fs|) <= |s.b|
    ensures FullDecode(s, FullAt(s, i, |s.fs|), CalledAt(s.fs, i, |s.fs|)).info.None?
  {
    hide Taken, Located, Decode, Continuation, MainOf, StateOfRun, DspLeft;
    NothingBehind(s.b, s.fs, s.l12, i);
  }

  /** Behind the last frame nothing is left. */
  lemma EndOfRun<D(!new)>(s: Setting<D>, stream: Info, i: nat, skip: nat)
    requires Uniform(s, stream) && i < |s.fs|
    ensures SourceOf(s).MakesProgress()
    ensures Yield(SourceOf(s), stream, FullAt(s, i, |s.fs|), CalledAt(s.fs, i, |s.fs|), skip) == []
  {
    hide Uniform, Taken, SourceOf, Source.MakesProgress, Source.HeaderSamples, Yield, FullDecode, FullAt;
    SourceMakesProgress(s);
    UniformIsTaken(s, stream);
    var n := |s.fs|;
    var st, e := FullAt(s, i, n), CalledAt(s.fs, i, n);
    SourceDecodes(s, st, e);
    YieldEnds(SourceOf(s), stream, st, skip);
    RunEnds(s, i);
    if e < |s.b| {
      YieldNext(SourceOf(s), stream, st, e, skip);
    }
  }

  lemma {:induction false} YieldOfRun<D(!new)>(s: Setting<D>, stream: Info, f: nat, i: nat, k: nat, skip: nat)
    requires Uniform(s, stream) && Plays(s, f) && i <= k <= |s.fs| && i < |s.fs| && Found(s.b, s.fs[i])
    ensures SourceOf(s).MakesProgress()
    ensures Yield(SourceOf(s), stream, FullAt(s, i, k), CalledAt(s.fs, i, k), skip) == YieldAt(s, i, k, skip)
    decreases |s.fs| - k
  {
    hide FullAt, Taken, Uniform, SourceOf, Source.MakesProgress, Kept, Dropped, Yield, Plays, Found, CalledAt;
    SourceMakesProgress(s);
    UniformIsTaken(s, stream);
    if k < |s.fs| {
      OneFrameOfRun(s, stream, f, i, k, skip);
      YieldOfRun(s, stream, f, i, k + 1, skip - Dropped(s, i, k, skip));
    } else {
      EndOfRun(s, stream, i, skip);
    }
  }

  // ---------------------------------------------------------------- counting samples

  /** The nominal samples of the frames a to t - 1; none when t is not beyond a. */
  ghost function NominalFrom(b: seq<Byte>, fs: seq<FrameRef>, a: nat, t: nat): nat
    requires Indexed(b, fs) && t <= |fs|
    decreases t
  {
    if t <= a then 0 else NominalFrom(b, fs, a, t - 1) + Nominal(b, fs[t - 1])
  }

  lemma {:induction false} NominalFromLeft(b: seq<Byte>, fs: seq<FrameRef>, a: nat, t: nat)
    requires Indexed(b, fs) && a < t <= |fs|
    ensures NominalFrom(b, fs, a, t) == Nominal(b, fs[a]) + NominalFrom(b, fs, a + 1, t)
  {
    hide Nominal, Indexed;
    if a + 1 < t { NominalFromLeft(b, fs, a, t - 1); }
  }

  ghost function Total<D(!new)>(s: Setting<D>, a: nat, t: nat): nat
    requires Taken(s.b, s.fs, s.l12) && t <= |s.fs|
  {
    NominalFrom(s.b, s.fs, a, t)
  }

  lemma TotalFromLeft<D(!new)>(s: Setting<D>, a: nat, t: nat)
    requires Taken(s.b, s.fs, s.l12) && a < t <= |s.fs|
    ensures Total(s, a, t) == Count(s, a) + Total(s, a + 1, t)
  {
    hide Taken, Nominal;
    TakenIsIndexed(s.b, s.fs, s.l12);
    NominalFromLeft(s.b, s.fs, a, t);
  }

  lemma {:induction false} TotalSplits<D(!new)>(s: Setting<D>, a: nat, m: nat, t: nat)
    requires Taken(s.b, s.fs, s.l12) && a <= m <= t <= |s.fs|
    ensures Total(s, a, t) == Total(s, a, m) + Total(s, m, t)
    decreases t
  {
    hide Taken, Nominal;
    if m < t {
      TotalSplits(s, a, m, t - 1);
    }
  }

  /** All frames of a stream have the same nominal count. */
  lemma SameCount<D(!new)>(s: Setting<D>, stream: Info, j: nat, k: nat)
    requires Uniform(s, stream) && j < |s.fs| && k < |s.fs|
    ensures Count(s, j) == Count(s, k)
  {
    hide Taken, Uniform, Header.Valid, Header.SampleRateHz, Header.FrameSamples;
    UniformIsTaken(s, stream);
    KindOfFrame(s, stream, j);
    KindOfFrame(s, stream, k);
    SameFrameSamples(At(s.b, s.fs[j].offset), At(s.b, s.fs[k].offset));
  }

  lemma PcmLength<D(!new)>(s: Setting<D>, stream: Info, i: nat, k: nat)
    requires Uniform(s, stream) && i <= k < |s.fs|
    ensures |PcmAt(s, i, k)| == if DecodesAt(UnitsOf(s), i, k) then Count(s, k) else 0
  {
    hide Taken, DecodesAt, Nominal;
  }

  /** A frame uses up its nominal count of `skip`, whether it decodes or not. */
  lemma OneFrameDropped<D(!new)>(s: Setting<D>, stream: Info, i: nat, k: nat, skip: nat)
    requires Uniform(s, stream) && i <= k < |s.fs|
    ensures Dropped(s, i, k, skip) == Min(Count(s, k), skip)
    ensures !DecodesAt(UnitsOf(s), i, k) || skip >= Count(s, k) ==> Kept(s, i, k, skip) == []
    ensures DecodesAt(UnitsOf(s), i, k) ==>
              |Kept(s, i, k, 0)| == Count(s, k) && Kept(s, i, k, skip) == Kept(s, i, k, 0)[Dropped(s, i, k, skip)..]
  {
    hide Taken, PcmAt, Nominal, Uniform, DecodesAt;
    UniformIsTaken(s, stream);
    PcmLength(s, stream, i, k);
  }

  /** Whole frames are dropped one by one, whether they decode or not. */
  lemma {:induction false} SkipWholeFrames<D(!new)>(s: Setting<D>, stream: Info, i: nat, k: nat, t: nat, y: nat)
    requires Uniform(s, stream) && i <= k <= t <= |s.fs|
    ensures YieldAt(s, i, k, Total(s, k, t) + y) == YieldAt(s, i, t, y)
    decreases t - k
  {
    hide Taken, Count, Uniform, Kept, Dropped, DecodesAt;
    UniformIsTaken(s, stream);
    if k < t {
      OneFrameDropped(s, stream, i, k, Total(s, k, t) + y);
      TotalFromLeft(s, k, t);
      SkipWholeFrames(s, stream, i, k + 1, t, y);
      assert [] + YieldAt(s, i, t, y) == YieldAt(s, i, t, y);
    }
  }

  lemma UniformIsTaken<D(!new)>(s: Setting<D>, stream: Info)
    requires Uniform(s, stream)
    ensures Taken(s.b, s.fs, s.l12)
  {}

  /** Once every frame decodes, dropping samples while reading is dropping them from what is read. */
  lemma {:induction false} DropWhileReading<D(!new)>(s: Setting<D>, stream: Info, f: nat, k: nat, skip: nat)
    requires Uniform(s, stream) && f <= k <= |s.fs| && DecodesFrom(UnitsOf(s), f)
    ensures YieldAt(s, 0, k, skip) == DropOf(YieldAt(s, 0, k, 0), skip)
    decreases |s.fs| - k
  {
    hide Taken, Count, Uniform, Kept, Dropped, DecodesAt, DecodesFrom, UnitsOf, PcmAt, DropOf;
    UniformIsTaken(s, stream);
    DropOfNothing(skip);
    if k < |s.fs| {
      DecodesLater(UnitsOf(s), f, k);
      OneFrameDropped(s, stream, 0, k, skip);
      OneFrameDropped(s, stream, 0, k, 0);
      DropWhileReading(s, stream, f, k + 1, skip - Dropped(s, 0, k, skip));
      DropTwo(Kept(s, 0, k, 0), YieldAt(s, 0, k + 1, 0), skip);
    }
  }

  lemma DropOfNothing(n: nat)
    ensures DropOf<Sample>([], n) == []
  {}

  lemma DropTwo<T>(p: seq<T>, rest: seq<T>, n: nat)
    ensures DropOf(p + rest, n) == p[Min(|p|, n)..] + DropOf(rest, n - Min(|p|, n))
  {}

  // ---------------------------------------------------------------- the restarted run meets the run from the start

  /** Nothing decodes before `f` in either run, so the signal processing state is still clear. */
  lemma {:induction false} ClearBefore<D(!new)>(s: Setting<D>, f: nat, i: nat, k: nat)
    requires Taken(s.b, s.fs, s.l12) && i <= k <= f <= |s.fs| && DecodesFrom(UnitsOf(s), f)
    ensures DspAt(s, i, k) == s.dsp.zero
    decreases k
  {
    hide Taken, DecodesFrom, DecodesAt, MainAt;
    if k > i {
      ClearBefore(s, f, i, k - 1);
      NothingEarlier(UnitsOf(s), f, i, k - 1);
    }
  }

  lemma MainIs<D(!new)>(s: Setting<D>, i: nat, k: nat)
    requires Taken(s.b, s.fs, s.l12) && i <= k < |s.fs| && !UnitsOf(s)[k].Corrupt?
    ensures MainAt(s, i, k) == if At(s.b, s.fs[k].offset).Layer() == 3
                               then MainData(Run(UnitsOf(s), i, k), UnitsOf(s)[k].frame) else []
  {
    hide Taken, Continuation, UnitOf, Run, MainData;
    UnitsAre(s.b, s.fs, s.l12, k);
  }

  /** From frame `m` on both runs decode the same frames from the same bytes. */
  lemma SameInputs<D(!new)>(s: Setting<D>, f: nat, i: nat, m: nat, k: nat)
    requires Taken(s.b, s.fs, s.l12) && f <= |s.fs| && DecodesFrom(UnitsOf(s), f)
    requires i <= m <= k < |s.fs| && Filled(UnitsOf(s), i, m)
    ensures DecodesAt(UnitsOf(s), i, k) <==> DecodesAt(UnitsOf(s), 0, k)
    ensures DecodesAt(UnitsOf(s), i, k) ==> MainAt(s, i, k) == MainAt(s, 0, k)
  {
    hide Taken, Run, MainData, MainAt, DecodesFrom, Filled, Decodes;
    Resynchronised(UnitsOf(s), f, i, m, k);
    if !UnitsOf(s)[k].Corrupt? {
      MainIs(s, i, k);
      MainIs(s, 0, k);
    }
  }

  lemma SameStep<D(!new)>(s: Setting<D>, f: nat, i: nat, m: nat, k: nat)
    requires Taken(s.b, s.fs, s.l12) && f <= |s.fs| && DecodesFrom(UnitsOf(s), f)
    requires i <= m <= k < |s.fs| && Filled(UnitsOf(s), i, m)
    requires DspAt(s, i, k) == DspAt(s, 0, k)
    ensures DspAt(s, i, k + 1) == DspAt(s, 0, k + 1) && PcmAt(s, i, k) == PcmAt(s, 0, k)
  {
    hide Taken, Run, DecodesFrom, DecodesAt, MainAt, Filled;
    SameInputs(s, f, i, m, k);
  }

  /** Two frames after `m` the signal processing states agree. */
  lemma DspMeets<D(!new)>(s: Setting<D>, f: nat, i: nat, m: nat)
    requires Taken(s.b, s.fs, s.l12) && f <= |s.fs| && DecodesFrom(UnitsOf(s), f) && TwoFrameMemory(s.dsp)
    requires i <= m && m + 2 <= |s.fs| && Filled(UnitsOf(s), i, m)
    ensures DspAt(s, i, m + 2) == DspAt(s, 0, m + 2)
  {
    hide *;
    if m < f {
      ClearBefore(s, f, i, m);
      ClearBefore(s, f, 0, m);
      SameStep(s, f, i, m, m);
      SameStep(s, f, i, m, m + 1);
    } else {
      DspMeetsLate(s, f, i, m);
    }
  }

  lemma DspMeetsLate<D(!new)>(s: Setting<D>, f: nat, i: nat, m: nat)
    requires Taken(s.b, s.fs, s.l12) && f <= |s.fs| && DecodesFrom(UnitsOf(s), f) && TwoFrameMemory(s.dsp)
    requires i <= m && f <= m && m + 2 <= |s.fs| && Filled(UnitsOf(s), i, m)
    ensures DspAt(s, i, m + 2) == DspAt(s, 0, m + 2)
  {
    hide *;
    var n := m + 1;
    if !UnitsOf(s)[m].Usable? || !UnitsOf(s)[n].Usable? {
      ClearAfterReset(s, i, m);
      ClearAfterReset(s, 0, m);
      ClearAfterReset(s, i, n);
      ClearAfterReset(s, 0, n);
      if UnitsOf(s)[n].Usable? { SameStep(s, f, i, m, n); }
    } else {
      DecodesLater(UnitsOf(s), f, m);
      DecodesLater(UnitsOf(s), f, n);
      SameInputs(s, f, i, m, m);
      SameInputs(s, f, i, m, n);
      TwoSteps(s, i, m);
      TwoSteps(s, 0, m);
      BothFramesInside(s, m);
      Forgets(s.dsp, DspAt(s, i, m), DspAt(s, 0, m), FrameOf(s.b, s.fs[m]), MainAt(s, i, m), FrameOf(s.b, s.fs[n]),
              MainAt(s, i, n));
    }
  }

  lemma ClearAfterReset<D(!new)>(s: Setting<D>, i: nat, k: nat)
    requires Taken(s.b, s.fs, s.l12) && i <= k < |s.fs|
    ensures !UnitsOf(s)[k].Usable? ==> DspAt(s, i, k + 1) == s.dsp.zero
  {
    hide Taken, UnitsOf, DspLeft;
  }

  lemma DecodesLater(us: seq<Unit>, f: nat, k: nat)
    requires ValidUnits(us) && f <= |us| && DecodesFrom(us, f) && k < |us|
    ensures DecodesAt(us, 0, k) <==> f <= k
  {}

  lemma BothFramesInside<D(!new)>(s: Setting<D>, m: nat)
    requires Taken(s.b, s.fs, s.l12) && m + 2 <= |s.fs|
    ensures |UnitsOf(s)| == |s.fs| && s.fs[m].End() <= |s.b| && s.fs[m + 1].End() <= |s.b|
  {
    hide Taken;
    TakenIsIndexed(s.b, s.fs, s.l12);
  }

  lemma Forgets<D(!new)>(dsp: Dsp<D>, d: D, e: D, x: seq<Byte>, mx: seq<Byte>, y: seq<Byte>, my: seq<Byte>)
    requires TwoFrameMemory(dsp)
    ensures dsp.step(dsp.step(d, x, mx), y, my) == dsp.step(dsp.step(e, x, mx), y, my)
  {}

  lemma TwoSteps<D(!new)>(s: Setting<D>, i: nat, m: nat)
    requires Taken(s.b, s.fs, s.l12) && i <= m && m + 2 <= |s.fs|
    requires UnitsOf(s)[m].Usable? && UnitsOf(s)[m + 1].Usable?
    requires DecodesAt(UnitsOf(s), i, m) && DecodesAt(UnitsOf(s), i, m + 1)
    ensures s.fs[m].End() <= |s.b| && s.fs[m + 1].End() <= |s.b|
    ensures DspAt(s, i, m + 2) == s.dsp.step(s.dsp.step(DspAt(s, i, m), FrameOf(s.b, s.fs[m]), MainAt(s, i, m)),
                                            FrameOf(s.b, s.fs[m + 1]), MainAt(s, i, m + 1))
  {
    hide Run, MainAt, Taken, Units, DecodesAt;
    BothFramesInside(s, m);
    assert DspAt(s, i, m + 1) == DspLeft(s, i, m + 1) && DspAt(s, i, m + 2) == DspLeft(s, i, m + 2);
  }

  lemma SameKept<D(!new)>(s: Setting<D>, i: nat, k: nat, skip: nat)
    requires Taken(s.b, s.fs, s.l12) && i <= k < |s.fs| && PcmAt(s, i, k) == PcmAt(s, 0, k)
    ensures Kept(s, i, k, skip) == Kept(s, 0, k, skip) && Dropped(s, i, k, skip) == Dropped(s, 0, k, skip)
  {
    hide Taken, PcmAt, Nominal;
  }

  /** From the target frame on the restarted run yields what the run from the start yields. */
  lemma {:induction false} SameFromTarget<D(!new)>(s: Setting<D>, f: nat, i: nat, m: nat, k: nat, skip: nat)
    requires Taken(s.b, s.fs, s.l12) && f <= |s.fs| && DecodesFrom(UnitsOf(s), f)
    requires i <= m <= k <= |s.fs| && Filled(UnitsOf(s), i, m)
    requires DspAt(s, i, k) == DspAt(s, 0, k)
    ensures YieldAt(s, i, k, skip) == YieldAt(s, 0, k, skip)
    decreases |s.fs| - k
  {
    hide Taken, Run, DecodesFrom, PcmAt, DspAt, Filled, Kept, Dropped;
    if k < |s.fs| {
      SameStep(s, f, i, m, k);
      SameKept(s, i, k, skip);
      SameFromTarget(s, f, i, m, k + 1, skip - Dropped(s, i, k, skip));
    }
  }
}
