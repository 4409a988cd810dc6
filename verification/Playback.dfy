/** Opening, reading, seeking and loading put together. */
module Playback {
  import opened Bits
  import opened Header
  import opened SideInfo
  import opened Sync
  import opened Reservoir
  import opened Decoder
  import opened Index
  import opened Player
  import opened Seeking
  import opened Counting
  import opened Accuracy
  import opened Exactness
  import opened Load
  import opened Opening
  import opened Wrappers

  // ---------------------------------------------------------------- where a stream starts

  /** A search from `start` on finds the first frame; bytes before it do not matter when it decodes. */
  ghost predicate StartsAt<D(!new)>(s: Setting<D>, start: nat, f: nat)
    requires |s.fs| > 0
  {
    start <= |s.b| && Find(s.b, start, start) == Some(s.fs[0]) && (f > 0 ==> start == s.fs[0].offset)
  }

  lemma DecodeAtStart<D(!new)>(s: Setting<D>, start: nat, f: nat)
    requires Taken(s.b, s.fs, s.l12) && |s.fs| > 0 && StartsAt(s, start, f)
    ensures start < |s.b| && s.fs[0].offset < |s.b|
    ensures var d, e := FullDecode(s, SourceOf(s).initial, start), FullDecode(s, SourceOf(s).initial, s.fs[0].offset);
      d.state == e.state && d.pcm == e.pcm && d.info == e.info && d.info.Some? &&
      start + d.bytes == s.fs[0].offset + e.bytes == s.fs[0].End()
  {
    hide Taken, Find, UnitOf, MainOf, After, Continuation, Header.BitrateKbps, Header.SampleRateHz, Header.Valid,
      FrameSize;
    FirstIsFound(s.b, s.fs, s.l12);
    FoundStands(s.b, s.fs[0]);
    LocatedFresh(s.b, start);
    LocatedFresh(s.b, s.fs[0].offset);
    NotContinued(s.b, start);
    NotContinued(s.b, s.fs[0].offset);
  }

  lemma NotContinued(b: seq<Byte>, off: nat)
    requires off <= |b|
    ensures Continuation(Fresh, b, off).None?
  {}

  /** Decoding from `start` yields what decoding from the first frame yields. */
  lemma FromAnyStart<D(!new)>(s: Setting<D>, stream: Info, f: nat, start: nat, skip: nat)
    requires Uniform(s, stream) && Plays(s, f) && |s.fs| > 0 && StartsAt(s, start, f)
    ensures SourceOf(s).MakesProgress()
    ensures Yield(SourceOf(s), stream, SourceOf(s).initial, start, skip)
         == Yield(SourceOf(s), stream, SourceOf(s).initial, s.fs[0].offset, skip)
  {
    hide Uniform, Taken, Plays, SourceOf, FullDecode, Yield, Source.MakesProgress, Source.HeaderSamples, StartsAt,
      PcmAt, FullAt, DecodesAt;
    SourceMakesProgress(s);
    UniformIsTaken(s, stream);
    AtFirst(s, f, start);
    if start != s.fs[0].offset {
      DecodeAtStart(s, start, f);
      FirstDecodes(s, stream, f);
      SourceDecodes(s, SourceOf(s).initial, start);
      SourceDecodes(s, SourceOf(s).initial, s.fs[0].offset);
      SameYield(SourceOf(s), stream, SourceOf(s).initial, start, s.fs[0].offset, skip);
    }
  }

  /** Two calls that give the same samples and end at the same byte are as good as each other. */
  lemma SameYield<S(!new)>(src: Source<S>, stream: Info, st: S, off: nat, at: nat, skip: nat)
    requires src.MakesProgress() && off < |src.b| && at < |src.b|
    requires var (d, e) := (src.decode(st, off), src.decode(st, at));
      d.state == e.state && d.pcm == e.pcm != [] && d.info == e.info && d.info.Some? && off + d.bytes == at + e.bytes
    ensures Yield(src, stream, st, off, skip) == Yield(src, stream, st, at, skip)
  {
    hide Source.HeaderSamples, Yield, Source.MakesProgress;
    YieldNext(src, stream, st, off, skip);
    YieldNext(src, stream, st, at, skip);
  }

  lemma FirstDecodes<D(!new)>(s: Setting<D>, stream: Info, f: nat)
    requires Uniform(s, stream) && Plays(s, f) && |s.fs| > 0 && f == 0
    ensures FullDecode(s, SourceOf(s).initial, s.fs[0].offset).pcm != []
  {
    hide Uniform, Taken, Found, Plays, SourceOf, FullDecode, PcmAt, FullAt, DecodesAt, HeaderAt, Header.BitrateKbps;
    UniformIsTaken(s, stream);
    FirstIsFound(s.b, s.fs, s.l12);
    StartIsFresh(s);
    KindOfFrame(s, stream, 0);
    OneFullDecode(s, 0, 0);
    PcmLength(s, stream, 0, 0);
    CalledInPlace(s, f, 0);
  }

  lemma AtFirst<D(!new)>(s: Setting<D>, f: nat, start: nat)
    requires |s.fs| > 0 && StartsAt(s, start, f)
    ensures start == s.fs[0].offset || f == 0
    ensures start <= |s.b| && SourceOf(s).b == s.b
  {
    hide Find;
  }

  // ---------------------------------------------------------------- a seek and a read

  /** The part of a stream that reading on gives when `at` samples of a known length are behind. */
  ghost function ReadOn(rest: seq<Sample>, at: nat, length: nat, n: nat): seq<Sample> {
    FirstOf(CutTo(rest, at, length), n)
  }

  /**
   * mp3dec_ex_seek in sample mode and then mp3dec_ex_read, on a reader in any state of its stream: the target `p` is
   * the position, cut to a length that is known, plus the start delay, saturating on 64 bits. The index counts from
   * the frame `Counted(s, st)`, where `st` is the state it was or now is built with.
   */
  method ReadAfterSeek<D(!new)>(ex: Mp3Ex<Full<D>>, ghost s: Setting<D>, ghost f: nat, ghost st: Full<D>,
                                position: nat, ghost p: nat, n: nat)
    returns (out: seq<Sample>)
    requires ex.Valid() && ex.IndexCovers() && ex.src == SourceOf(s) && Placed(s) && ex.fs == Listed(s)
    requires Readable(s, ex.stream, f) && StartsAt(s, ex.startOffset, f) && Taken(s.b, s.fs, s.l12)
    requires ex.startDelay <= UINT64_MAX && position <= UINT64_MAX
    requires Own(s, st) && if ex.indexesBuilt then ex.index == IndexBy(s, st) else ex.mp3d == st
    requires p == Min((if ex.samples > 0 then Min(position, ex.samples) else position) + ex.startDelay,
                      0xFFFF_FFFF_FFFF_FFFF)
    requires Reachable(s, ex.stream, st, p)
    modifies ex
    ensures Sought(s, ex.stream, f, st, p) ==
      DropOf(Continuous(s, ex.stream), p - Min(p, Lost(s, ex.stream, f, st)) + Late(s, ex.stream, f, st, p))
    ensures out == ReadOn(Sought(s, ex.stream, f, st, p), if old(ex.samples) > 0 then Min(position, old(ex.samples))
                                                          else position, ex.detectedSamples, n)
  {
    hide *;
    ReadableMeans(s, ex.stream, f);
    AtFirst(s, f, ex.startOffset);
    IndexByIs(s, st);
    ghost var at := if ex.samples > 0 then Min(position, ex.samples) else position;
    ghost var q, t, i := ex.SeekToSample(position);
    PendingIsSought(s, ex.stream, f, st, p, ex.startOffset, t, i, ex.index, ex.Pending());
    SoughtIs(s, ex.stream, f, st, p);
    LandingIs(s, ex.stream, f, st, p);
    RestOf(ex);
    out := ex.Read(n);
    ReadOnIs(Sought(s, ex.stream, f, st, p), at, ex.detectedSamples, n);
  }

  lemma LandingIs<D(!new)>(s: Setting<D>, stream: Info, f: nat, st: Full<D>, p: nat)
    requires Readable(s, stream, f)
    ensures Landing(s, stream, f, st, p) == p - Min(p, Lost(s, stream, f, st)) + Late(s, stream, f, st, p)
  {
    hide Readable, Lost, Late;
  }

  lemma ReadOnIs(rest: seq<Sample>, at: nat, length: nat, n: nat)
    ensures ReadOn(rest, at, length, n) == FirstOf(CutTo(rest, at, length), n)
  {}

  lemma IndexByIs<D(!new)>(s: Setting<D>, st: Full<D>)
    requires Taken(s.b, s.fs, s.l12) && Placed(s)
    ensures SourceOf(s).b == s.b && Indexed(s.b, Listed(s)) && |IndexBy(s, st)| == |s.ix|
    ensures IndexBy(s, st) == IndexWith(SourceOf(s), Listed(s), st)
  {
    hide Taken, Found;
    ListedIsIndexed(s);
  }

  lemma RestOf<S(!new)>(ex: Mp3Ex<S>)
    requires ex.Valid()
    ensures ex.Rest() == CutTo(ex.Pending(), ex.curSample, ex.detectedSamples)
  {}

  /** What the reader has pending after a seek is what the frame chosen gives. */
  lemma PendingIsSought<D(!new)>(s: Setting<D>, stream: Info, f: nat, st: Full<D>, p: nat, start: nat, t: nat, i: nat,
                                 index: seq<Entry>, pending: seq<Sample>)
    requires Readable(s, stream, f) && StartsAt(s, start, f) && Taken(s.b, s.fs, s.l12) && Placed(s)
    requires SourceOf(s).MakesProgress() && Indexed(s.b, Listed(s)) && |s.ix| > 0
    requires p > 0 ==> index == IndexBy(s, st)
    requires p == 0 || index == [] ==> pending == Yield(SourceOf(s), stream, SourceOf(s).initial, start, 0)
    requires p > 0 && index != [] ==>
      IsTarget(index, p, t) && t < |s.ix| && RestartsAt(s.b, Listed(s), stream.layer, t, i) && i < |index| &&
      pending == Yield(SourceOf(s), stream, SourceOf(s).initial, index[i].offset,
                       SkipFrom(SourceOf(s), index, stream.channels, i, p))
    ensures pending == Sought(s, stream, f, st, p)
  {
    hide Readable, Uniform, Taken, Placed, Plays, Lists, TwoFrameMemory, StartsAt, Indexed, Yield, SourceOf, IsTarget,
      RestartsAt, SkipFrom, IndexWith, Listed;
    ReadableMeans(s, stream, f);
    FromAnyStart(s, stream, f, start, 0);
    if p > 0 {
      var c := Chosen(s, stream, f, st, p);
      ChoosesOne(s, stream, index, p, t, i, c.0, c.1);
    }
  }

  // ---------------------------------------------------------------- a seek after reading

  /** Reading from the start on, the decoder goes through the states of the run, and is fresh behind the last frame. */
  lemma {:induction false} StepsInRun<D(!new)>(s: Setting<D>, start: nat, f: nat, n: nat)
    requires Taken(s.b, s.fs, s.l12) && |s.fs| > 0 && StartsAt(s, start, f)
    ensures Steps(SourceOf(s), SourceOf(s).initial, start, n)
         == if n == 0 then (SourceOf(s).initial, start)
            else if n <= |s.fs| then (FullAt(s, 0, n), CalledAt(s.fs, 0, n)) else (SourceOf(s).initial, |s.b|)
  {
    hide Taken, FullAt, SourceOf, CalledAt, StartsAt;
    if n > 0 {
      var k := n - 1;
      StepsInRun(s, start, f, k);
      if k == 0 {
        FirstStep(s, start, f);
      } else if k < |s.fs| {
        StepInRun(s, k);
      } else {
        var inside := k == |s.fs|;
        StepsEnd(s, if inside then FullAt(s, 0, k) else SourceOf(s).initial,
                 if inside then CalledAt(s.fs, 0, k) else |s.b|);
      }
    }
  }

  lemma FirstStep<D(!new)>(s: Setting<D>, start: nat, f: nat)
    requires Taken(s.b, s.fs, s.l12) && |s.fs| > 0 && StartsAt(s, start, f)
    ensures var d := SourceOf(s).decode(SourceOf(s).initial, start);
      d.state == FullAt(s, 0, 1) && start + d.bytes == CalledAt(s.fs, 0, 1)
  {
    hide Taken, Found, FullAt, SourceOf, FullDecode, PcmAt, StartsAt, Header.SampleRateHz, Header.BitrateKbps;
    DecodeAtStart(s, start, f);
    SourceDecodes(s, SourceOf(s).initial, start);
    FirstIsFound(s.b, s.fs, s.l12);
    StartIsFresh(s);
    OneFullDecode(s, 0, 0);
  }

  lemma StepInRun<D(!new)>(s: Setting<D>, k: nat)
    requires Taken(s.b, s.fs, s.l12) && k < |s.fs|
    ensures var d := SourceOf(s).decode(FullAt(s, 0, k), CalledAt(s.fs, 0, k));
      d.state == FullAt(s, 0, k + 1) && CalledAt(s.fs, 0, k) + d.bytes == CalledAt(s.fs, 0, k + 1)
  {
    hide Taken, Found, FullAt, SourceOf, FullDecode, PcmAt, Header.SampleRateHz, Header.BitrateKbps;
    SourceDecodes(s, FullAt(s, 0, k), CalledAt(s.fs, 0, k));
    FirstIsFound(s.b, s.fs, s.l12);
    OneFullDecode(s, 0, k);
  }

  /** A call behind the last frame resets the decoder and consumes what is left. */
  lemma StepsEnd<D(!new)>(s: Setting<D>, st: Full<D>, e: nat)
    requires Taken(s.b, s.fs, s.l12) && |s.fs| > 0
    requires (st == FullAt(s, 0, |s.fs|) && e == CalledAt(s.fs, 0, |s.fs|)) || (st == SourceOf(s).initial && e == |s.b|)
    ensures var d := SourceOf(s).decode(st, e); d.state == SourceOf(s).initial && e + d.bytes == |s.b|
  {
    hide Taken, Located, Decode, Continuation, MainOf, Nominal, StateOfRun, DspLeft;
    NothingBehind(s.b, s.fs, s.l12, 0);
    SourceDecodes(s, st, e);
    if e == |s.b| { NothingAtEnd(s.b, st.dec); }
    LocatedNone(st.dec, s.b, e, s.l12);
  }

  lemma NothingAtEnd(b: seq<Byte>, st: State)
    ensures Located(st, b, |b|).None?
  {}

  lemma RunStateIsOwn<D(!new)>(s: Setting<D>, stream: Info, k: nat)
    requires Uniform(s, stream) && k <= |s.fs|
    ensures Taken(s.b, s.fs, s.l12) && Own(s, FullAt(s, 0, k))
  {
    hide Taken, Uniform, Units, DspLeft;
    UniformIsTaken(s, stream);
    if k > 0 { KindOfFrame(s, stream, k - 1); }
  }

  /** Every state that reading from the start leaves belongs to the stream. */
  lemma VisitedIsOwn<D(!new)>(s: Setting<D>, stream: Info, start: nat, f: nat, st: Full<D>)
    requires Uniform(s, stream) && |s.fs| > 0 && StartsAt(s, start, f)
    requires Visits(SourceOf(s), SourceOf(s).initial, start, st)
    ensures Own(s, st)
  {
    hide Taken, Uniform, SourceOf, FullAt, Own, Steps, StartsAt;
    UniformIsTaken(s, stream);
    var n: nat :| Steps(SourceOf(s), SourceOf(s).initial, start, n).0 == st;
    StepsInRun(s, start, f, n);
    StartIsFresh(s);
    if n <= |s.fs| { RunStateIsOwn(s, stream, n); }
  }

  lemma CameFromVisits<S(!new)>(ex: Mp3Ex<S>, st: S, off: nat)
    requires ex.CameFrom(st, off, false)
    ensures Visits(ex.src, st, off, ex.mp3d)
  {}

  /**
   * A reader opened by its tag, which has no index yet: after any read the seek builds one with the decoder as it is,
   * and when the first frame of the stream decodes this does no harm. The seek is exact unless frames are missing
   * before the frame it restarts from.
   */
  method SeekAfterReading<D(!new)>(ex: Mp3Ex<Full<D>>, ghost s: Setting<D>, m: nat, position: nat, ghost p: nat,
                                   n: nat)
    returns (first: seq<Sample>, out: seq<Sample>, ghost st: Full<D>)
    requires ex.Valid() && ex.IndexCovers() && ex.src == SourceOf(s) && Placed(s) && ex.fs == Listed(s)
    requires !ex.indexesBuilt && !ex.failed && ex.startOffset == ex.offset && ex.mp3d == ex.src.initial
    requires Readable(s, ex.stream, 0) && StartsAt(s, ex.startOffset, 0) && Taken(s.b, s.fs, s.l12)
    requires ex.startDelay <= UINT64_MAX && position <= UINT64_MAX
    requires p == Min((if ex.samples > 0 then Min(position, ex.samples) else position) + ex.startDelay,
                      0xFFFF_FFFF_FFFF_FFFF)
    requires forall st :: Own(s, st) ==> Reachable(s, ex.stream, st, p)
    modifies ex
    ensures first == FirstOf(old(ex.Rest()), m) && Own(s, st)
    ensures out == ReadOn(DropOf(Continuous(s, ex.stream), p + Late(s, ex.stream, 0, st, p)),
                          if old(ex.samples) > 0 then Min(position, old(ex.samples)) else position,
                          ex.detectedSamples, n)
  {
    hide *;
    ReadableMeans(s, ex.stream, 0);
    first := ex.Read(m);
    CameFromVisits(ex, SourceOf(s).initial, ex.startOffset);
    VisitedIsOwn(s, ex.stream, ex.startOffset, 0, ex.mp3d);
    st := ex.mp3d;
    out := ReadAfterSeek(ex, s, 0, st, position, p, n);
    NothingLost(s, ex.stream, st, p);
  }

  lemma NothingLost<D(!new)>(s: Setting<D>, stream: Info, st: Full<D>, p: nat)
    requires Readable(s, stream, 0) && Own(s, st)
    ensures p - Min(p, Lost(s, stream, 0, st)) == p
  {
    hide Readable, Own, Lost;
    LostIff(s, stream, 0, st);
  }

  // ---------------------------------------------------------------- opening, reading and seeking

  /**
   * The frames taken are those that decoding from `start` on takes, and those listed are those that iterating finds.
   */
  ghost predicate OfBuffer<D(!new)>(s: Setting<D>, start: nat) {
    start <= |s.b| && s.fs == AllTaken(s.b, s.l12, Fresh, start) && Placed(s) && Listed(s) == Frames(s.b, start)
  }

  lemma OfBufferIsTaken<D(!new)>(s: Setting<D>, start: nat, f: nat)
    requires OfBuffer(s, start) && |s.fs| > 0 && (f > 0 ==> start == s.fs[0].offset)
    ensures Taken(s.b, s.fs, s.l12) && StartsAt(s, start, f) && Placed(s) && Listed(s) == Frames(s.b, start)
  {
    hide Taken, AllTaken, Find, Found, Frames, Listed;
    EveryStreamIsTaken(s.b, s.l12, start);
  }

  /** The length a reader knows before its first seek: the one found by a scan, or the one that a tag announces. */
  ghost function KnownLength<D(!new)>(s: Setting<D>, plan: Plan, scan: bool): nat
    requires Taken(s.b, s.fs, s.l12) && Placed(s)
  {
    if scan && plan.length.None? then ScannedLength(s) else LengthOf(plan)
  }

  /** The first frame found in a buffer gives the kind of the stream, and, as it may hold a tag, how it is played. */
  ghost predicate Opens<D(!new)>(s: Setting<D>, buf: seq<Byte>, head: FrameRef, plan: Plan, kind: Info) {
    s.b == buf[..AudioRange(buf).1] && Find(s.b, AudioRange(buf).0, AudioRange(buf).0) == Some(head) &&
    plan == PlanFor(s.b, head) && kind == KindOf(At(s.b, head.offset))
  }

  /** The stream of the buffer is as the theorems ask for, and what lies before its first frame does not matter. */
  ghost predicate Playable<D(!new)>(s: Setting<D>, plan: Plan, kind: Info, f: nat) {
    OfBuffer(s, plan.start) && Readable(s, kind, f) && (f > 0 ==> plan.start == s.fs[0].offset)
  }

  lemma PlayableMeans<D(!new)>(s: Setting<D>, plan: Plan, kind: Info, f: nat)
    requires Playable(s, plan, kind, f)
    ensures Readable(s, kind, f) && |s.fs| > 0 && Taken(s.b, s.fs, s.l12) && Placed(s) && StartsAt(s, plan.start, f)
    ensures Listed(s) == Frames(s.b, plan.start)
  {
    hide OfBuffer, Readable, Taken, Placed, StartsAt, Frames, Listed;
    ReadableMeans(s, kind, f);
    OfBufferIsTaken(s, plan.start, f);
  }

  /** What `n` samples read from the target `p` are when `at` samples of a known length are behind. */
  ghost function ReadFrom<D(!new)>(s: Setting<D>, kind: Info, f: nat, st: Full<D>, p: nat, at: nat, length: nat,
                                   n: nat): seq<Sample>
    requires Readable(s, kind, f)
  {
    ReadOn(DropOf(Continuous(s, kind), p - Min(p, Lost(s, kind, f, st)) + Late(s, kind, f, st, p)), at, length, n)
  }

  lemma ReadFromIs<D(!new)>(s: Setting<D>, kind: Info, f: nat, st: Full<D>, p: nat, at: nat, length: nat, n: nat)
    requires Readable(s, kind, f)
    ensures ReadFrom(s, kind, f, st, p, at, length, n)
         == ReadOn(DropOf(Continuous(s, kind), p - Min(p, Lost(s, kind, f, st)) + Late(s, kind, f, st, p)), at, length,
                   n)
  {
    hide Readable, ReadOn, DropOf, Continuous, Lost, Late;
  }

  /**
   * A buffer is opened, `m` samples are read, and after a seek to `position` `n` more. The first samples are those of
   * the continuous stream behind the part of the delay that failing frames do not use up; the others are those from
   * where the seek ends up with an index built with some decoder of the stream, a fresh one if the buffer was
   * scanned. The target `p` is the position, cut to the known length if there is one, plus the delay.
   */
  method Play<D(!new)>(buf: seq<Byte>, src: Source<Full<D>>, scan: bool, ghost s: Setting<D>, ghost f: nat,
                       ghost head: FrameRef, ghost plan: Plan, ghost kind: Info, m: nat, position: nat,
                       ghost p: nat, ghost at: nat, n: nat)
    returns (first: seq<Sample>, out: seq<Sample>)
    requires src == SourceOf(s) && position <= UINT64_MAX && Opens(s, buf, head, plan, kind) &&
      Playable(s, plan, kind, f)
    requires Taken(s.b, s.fs, s.l12) && Placed(s)
    requires var known := KnownLength(s, plan, scan); at == if known > 0 then Min(position, known) else position
    requires p == Min(at + plan.skip, 0xFFFF_FFFF_FFFF_FFFF) && forall st :: Own(s, st) ==> Reachable(s, kind, st, p)
    ensures |s.fs| > 0 && first == ReadOn(Opened(s, kind, plan.skip), 0, LengthOf(plan), m)
    ensures Readable(s, kind, f) && exists st :: Own(s, st) && (scan && plan.length.None? ==> st == src.initial) &&
                                                out == ReadFrom(s, kind, f, st, p, at, LengthOf(plan), n)
  {
    hide *;
    SourceMakesProgress(s);
    SourceDecodes(s, src.initial, 0);
    OpensMeans(s, buf, head, plan, kind);
    var ex := OpenBuf(buf, src, scan);
    PlayableMeans(s, plan, kind, f);
    ReadableMeans(s, kind, f);
    AtFirst(s, f, plan.start);
    IndexByIs(s, src.initial);
    OpenedMeans(ex, src, head, scan);
    DelayFits(s.b, head);
    FromAnyStart(s, kind, f, plan.start, plan.skip);
    OpenedIs(s, kind, plan.skip);
    RestOf(ex);
    ReadOnIs(ex.Pending(), 0, LengthOf(plan), m);
    KnownLengthIs(s, plan, scan);
    StartIsFresh(s);
    first := ex.Read(m);
    ghost var st := src.initial;
    if !ex.indexesBuilt {
      CameFromVisits(ex, src.initial, plan.start);
      VisitedIsOwn(s, kind, plan.start, f, ex.mp3d);
      st := ex.mp3d;
    }
    out := ReadAfterSeek(ex, s, f, st, position, p, n);
    ReadFromIs(s, kind, f, st, p, at, LengthOf(plan), n);
    assert Own(s, st);
  }

  lemma OpensMeans<D(!new)>(s: Setting<D>, buf: seq<Byte>, head: FrameRef, plan: Plan, kind: Info)
    requires Opens(s, buf, head, plan, kind)
    ensures s.b == buf[..AudioRange(buf).1] && Find(s.b, AudioRange(buf).0, AudioRange(buf).0) == Some(head)
    ensures head.End() <= |s.b| && HeaderAt(s.b, head.offset) && head.offset + HDR_SIZE <= |s.b|
    ensures At(s.b, head.offset).Valid() && plan == PlanFor(s.b, head) && kind == KindOf(At(s.b, head.offset))
  {
    hide Find, AudioRange, Accepted, Header.Valid, PlanFor;
  }

  lemma DelayFits(b: seq<Byte>, head: FrameRef)
    requires head.End() <= |b| && HeaderAt(b, head.offset)
    ensures PlanFor(b, head).skip <= UINT64_MAX
  {
    hide PlanFor, HeaderAt;
    DelayIsShort(b, head);
  }

  lemma OpenedMeans<S(!new)>(ex: Mp3Ex<S>, src: Source<S>, head: FrameRef, scan: bool)
    requires src.MakesProgress() && head.End() <= |src.b| && HeaderAt(src.b, head.offset) &&
      OpenedAt(ex, src, head, scan)
    ensures var (plan, kind) := (PlanFor(src.b, head), KindOf(At(src.b, head.offset)));
      ex.Valid() && ex.IndexCovers() && !ex.failed && ex.curSample == 0 && ex.src == src && ex.stream == kind &&
      ex.fs == Frames(src.b, plan.start) && ex.startOffset == plan.start && ex.startDelay == plan.skip &&
      ex.detectedSamples == LengthOf(plan) && ex.Pending() == Yield(src, kind, src.initial, plan.start, plan.skip) &&
      ex.indexesBuilt == (scan && plan.length.None?) &&
      (if ex.indexesBuilt
       then ex.index == IndexWith(src, ex.fs, src.initial) && ex.samples == CountWith(src, ex.fs, src.initial)
       else ex.mp3d == src.initial && ex.offset == plan.start && ex.samples == LengthOf(plan))
  {
    hide PlanFor, Header.Valid, Mp3Ex.Valid, Mp3Ex.IndexCovers, Mp3Ex.Pending, Frames;
  }

  lemma OpenedIs<D(!new)>(s: Setting<D>, stream: Info, delay: nat)
    requires |s.fs| > 0
    ensures SourceOf(s).MakesProgress()
    ensures Opened(s, stream, delay) == Yield(SourceOf(s), stream, SourceOf(s).initial, s.fs[0].offset, delay)
  {
    hide Yield, SourceOf;
    SourceMakesProgress(s);
  }

  lemma KnownLengthIs<D(!new)>(s: Setting<D>, plan: Plan, scan: bool)
    requires Taken(s.b, s.fs, s.l12) && Placed(s)
    ensures SourceOf(s).b == s.b && Indexed(s.b, Listed(s))
    ensures KnownLength(s, plan, scan)
         == if scan && plan.length.None? then CountWith(SourceOf(s), Listed(s), SourceOf(s).initial) else LengthOf(plan)
  {
    hide Taken, Found, CountWith;
    ListedIsIndexed(s);
  }

  // ---------------------------------------------------------------- a whole load

  /** The signal processing gives no more samples than the buffer of a frame holds. */
  ghost predicate FitsFrame<D(!new)>(dsp: Dsp<D>) {
    forall d, frame, main :: |dsp.pcm(d, frame, main)| <= MINIMP3_MAX_SAMPLES_PER_FRAME
  }

  lemma SourceIsBounded<D(!new)>(s: Setting<D>)
    requires FitsFrame(s.dsp)
    ensures Bounded(SourceOf(s))
  {
    hide Located, Decode, Continuation, MainOf, SourceOf, FullDecode, Source.MakesProgress, Header.Channels;
    SourceMakesProgress(s);
    var b := SourceOf(s).b;
    forall st, off ensures |SourceOf(s).decode(st, off).pcm| <= MINIMP3_MAX_SAMPLES_PER_FRAME {
      SourceDecodes(s, st, off);
      FewDecoded(s, st, off);
    }
    forall st ensures SourceOf(s).decode(st, |b|).bytes == 0 && SourceOf(s).decode(st, |b|).pcm == [] {
      SourceDecodes(s, st, |b|);
      NoneDecodedAtEnd(s, st);
    }
  }

  lemma FewDecoded<D(!new)>(s: Setting<D>, st: Full<D>, off: nat)
    requires FitsFrame(s.dsp)
    ensures |FullDecode(s, st, off).pcm| <= MINIMP3_MAX_SAMPLES_PER_FRAME
  {
    hide Located, Decode, Continuation, MainOf;
  }

  lemma NoneDecodedAtEnd<D(!new)>(s: Setting<D>, st: Full<D>)
    ensures FullDecode(s, st, |s.b|).bytes == 0 && FullDecode(s, st, |s.b|).pcm == []
  {
    hide Located, Decode, Continuation, MainOf;
    NothingAtEnd(s.b, st.dec);
  }

  lemma JoinedStep(pcm: seq<Sample>, rest: seq<seq<Sample>>)
    ensures Joined([pcm] + rest) == pcm + Joined(rest)
  {
    assert ([pcm] + rest)[1..] == rest;
  }

  /** One call of the decode loop for a frame of the stream. */
  lemma DecodingNext<S(!new)>(src: Source<S>, kind: Info, st: S, off: nat)
    requires src.MakesProgress() && off < |src.b| && src.decode(st, off).info == Some(kind)
    ensures var d := src.decode(st, off);
      var (all, rest) := (Decoding(src, kind, st, off), Decoding(src, kind, d.state, off + d.bytes));
      all.ok == rest.ok && Joined(all.frames) == d.pcm + Joined(rest.frames)
  {
    hide Joined;
    var d := src.decode(st, off);
    var rest := Decoding(src, kind, d.state, off + d.bytes);
    if d.pcm == [] {
      assert [] + Joined(rest.frames) == Joined(rest.frames);
    } else {
      JoinedStep(d.pcm, rest.frames);
    }
  }

  lemma DecodingEnds<S(!new)>(src: Source<S>, kind: Info, st: S, off: nat)
    requires src.MakesProgress() && (off >= |src.b| || src.decode(st, off).info.None?)
    ensures Decoding(src, kind, st, off).ok && Joined(Decoding(src, kind, st, off).frames) == []
  {}

  /** The frames decoded, joined, are what reading yields. */
  lemma {:induction false} JoinedOfRun<D(!new)>(s: Setting<D>, stream: Info, k: nat)
    requires Uniform(s, stream) && |s.fs| > 0 && k <= |s.fs|
    ensures SourceOf(s).MakesProgress() && Taken(s.b, s.fs, s.l12)
    ensures var all := Decoding(SourceOf(s), stream, FullAt(s, 0, k), CalledAt(s.fs, 0, k));
      all.ok && Joined(all.frames) == YieldAt(s, 0, k, 0)
    decreases |s.fs| - k
  {
    hide Uniform, Taken, Found, FullAt, SourceOf, FullDecode, PcmAt, Decoding, Joined, HeaderAt, Source.MakesProgress,
      Header.BitrateKbps, Kept, Dropped;
    SourceMakesProgress(s);
    UniformIsTaken(s, stream);
    SourceDecodes(s, FullAt(s, 0, k), CalledAt(s.fs, 0, k));
    if k < |s.fs| {
      KeptAll(s, k);
      KindOfFrame(s, stream, k);
      FirstIsFound(s.b, s.fs, s.l12);
      OneFullDecode(s, 0, k);
      DecodingNext(SourceOf(s), stream, FullAt(s, 0, k), CalledAt(s.fs, 0, k));
      JoinedOfRun(s, stream, k + 1);
    } else {
      RunEnds(s, 0);
      DecodingEnds(SourceOf(s), stream, FullAt(s, 0, k), CalledAt(s.fs, 0, k));
    }
  }

  lemma KeptAll<D(!new)>(s: Setting<D>, k: nat)
    requires Taken(s.b, s.fs, s.l12) && k < |s.fs|
    ensures Kept(s, 0, k, 0) == PcmAt(s, 0, k) && Dropped(s, 0, k, 0) == 0
  {
    hide Taken, PcmAt;
  }

  /** All the frames that a load decodes make up the continuous stream. */
  lemma LoadDecodesAll<D(!new)>(s: Setting<D>, stream: Info, f: nat, start: nat)
    requires Uniform(s, stream) && Plays(s, f) && |s.fs| > 0 && StartsAt(s, start, f)
    ensures SourceOf(s).MakesProgress()
    ensures var all := Decoding(SourceOf(s), stream, SourceOf(s).initial, start);
      all.ok && Joined(all.frames) == Continuous(s, stream)
  {
    hide Uniform, Taken, Plays, Found, SourceOf, FullDecode, FullAt, Decoding, Joined, StartsAt, Continuous, YieldAt,
      PcmAt, Source.MakesProgress, HeaderAt, Header.BitrateKbps;
    SourceMakesProgress(s);
    UniformIsTaken(s, stream);
    FromStart(s, stream, f);
    StartIsFresh(s);
    FirstIsFound(s.b, s.fs, s.l12);
    KindOfFrame(s, stream, 0);
    OneFullDecode(s, 0, 0);
    DecodeAtStart(s, start, f);
    SourceDecodes(s, SourceOf(s).initial, start);
    SourceDecodes(s, SourceOf(s).initial, s.fs[0].offset);
    DecodingNext(SourceOf(s), stream, SourceOf(s).initial, start);
    DecodingNext(SourceOf(s), stream, SourceOf(s).initial, s.fs[0].offset);
    JoinedOfRun(s, stream, 0);
  }

  /**
   * A load drops the delay from the samples that are yielded; a reader just opened lets failing frames use up their
   * part of it. Both give the same samples if and only if no frame does so, or the stream ends before the rest of the
   * delay.
   */
  lemma LoadAgreesIff<D(!new)>(s: Setting<D>, stream: Info, f: nat, delay: nat)
    requires Uniform(s, stream) && Plays(s, f) && |s.fs| > 0
    ensures f <= |s.fs| && Taken(s.b, s.fs, s.l12)
    ensures var used := Min(delay, Total(s, 0, f));
      (DropOf(Continuous(s, stream), delay) == Opened(s, stream, delay) <==>
         used == 0 || |Continuous(s, stream)| <= delay - used) &&
      (used == 0 <==> delay == 0 || f == 0)
  {
    hide Uniform, Taken, Plays, SourceOf, Continuous, Total, DropOf;
    OpenYields(s, stream, f, delay);
    SameDropIff(Continuous(s, stream), delay, delay - Min(delay, Total(s, 0, f)));
    if f > 0 { TotalFromLeft(s, 0, f); } else { NoTotal(s, 0); }
  }

  /** What a whole load of a buffer gives, and what `n` samples read after opening it are. */
  method LoadAndOpen<D(!new)>(buf: seq<Byte>, src: Source<Full<D>>, scan: bool, ghost s: Setting<D>, ghost f: nat,
                              ghost head: FrameRef, ghost plan: Plan, ghost kind: Info, n: nat)
    returns (ret: int, info: FileInfo?, out: seq<Sample>)
    requires src == SourceOf(s) && FitsFrame(s.dsp) && Opens(s, buf, head, plan, kind) && Playable(s, plan, kind, f)
    ensures |s.fs| > 0 && ret == 0 && (info == null <==> plan.length == Some(0))
    ensures info != null ==>
              info.Valid() && info.Contents() == CutTo(DropOf(Continuous(s, kind), plan.skip), 0, LengthOf(plan))
    ensures out == ReadOn(Opened(s, kind, plan.skip), 0, LengthOf(plan), n)
  {
    hide *;
    SourceMakesProgress(s);
    SourceDecodes(s, src.initial, 0);
    OpensMeans(s, buf, head, plan, kind);
    PlayableMeans(s, plan, kind, f);
    ReadableMeans(s, kind, f);
    AtFirst(s, f, plan.start);
    SourceIsBounded(s);
    LoadDecodesAll(s, kind, f, plan.start);
    LoadedIs(src, head);
    LoadedSamples(src, kind, plan.start, plan.skip, LengthOf(plan));
    ret, info := LoadBuf(buf, src);
    if info != null { ContentsAre(info, Loaded(src, Some(head)).1.value); }
    var ex := OpenBuf(buf, src, scan);
    OpenedMeans(ex, src, head, scan);
    FromAnyStart(s, kind, f, plan.start, plan.skip);
    OpenedIs(s, kind, plan.skip);
    RestOf(ex);
    ReadOnIs(ex.Pending(), 0, LengthOf(plan), n);
    out := ex.Read(n);
  }

  lemma LoadedIs<S(!new)>(src: Source<S>, head: FrameRef)
    requires Bounded(src) && head.End() <= |src.b| && HeaderAt(src.b, head.offset)
    ensures src.MakesProgress()
    ensures var (plan, kind) := (PlanFor(src.b, head), KindOf(At(src.b, head.offset)));
      Loaded(src, Some(head)) ==
        if plan.length == Some(0) then (0, None)
        else (if Decoding(src, kind, src.initial, plan.start).ok then 0 else MP3D_E_DECODE,
              Some(LoadedBy(src, kind, plan.start, plan.skip, LengthOf(plan))))
  {
    hide PlanFor, Decoding, LoadedBy, Header.Valid;
  }

  lemma LoadedSamples<S(!new)>(src: Source<S>, kind: Info, start: nat, skip: nat, length: nat)
    requires src.MakesProgress()
    ensures LoadedBy(src, kind, start, skip, length).samples
         == CutTo(DropOf(Joined(Decoding(src, kind, src.initial, start).frames), skip), 0, length)
    ensures LoadedBy(src, kind, start, skip, length).kind == kind
  {
    hide Decoding, Joined, DropOf, FirstOf;
  }

  lemma ContentsAre(info: FileInfo, l: Loading)
    requires info.Valid() && info.Is(l)
    ensures info.Contents() == l.samples && info.kind == l.kind
  {}

  /**
   * A buffer whose first frame holds a tag with a frame count, a delay and a padding that fit into these frames: a load
   * gives what decoding from the next frame on gives without the skip, cut to the length, or nothing if that is 0; and
   * a reader starts there with the same skip and the same length.
   */
  method LoadAndOpenTagged<S(!new)>(buf: seq<Byte>, src: Source<S>, scan: bool, ghost f: FrameRef,
                                    ghost frame: seq<Byte>, ghost n: nat, ghost ext: nat, ghost delay: nat,
                                    ghost padding: nat)
    returns (ret: int, info: FileInfo?, ex: Mp3Ex<S>, ghost skip: nat, ghost length: nat)
    requires Bounded(src) && src.b == buf[..AudioRange(buf).1]
    requires Find(src.b, AudioRange(buf).0, AudioRange(buf).0) == Some(f) && MayHoldTag(src.b, f, frame)
    requires CountWritten(frame, TagPlace(src.b, f), n, ext) && DelaysWritten(frame, ext, delay, padding)
    requires var channels := if src.b[f.offset + 3] / 64 == 3 then 1 else 2;
      (delay + 529) * channels + (if padding > 529 then (padding - 529) * channels else 0) <= AllSamples(src.b, f, n)
    ensures var channels := if src.b[f.offset + 3] / 64 == 3 then 1 else 2;
      skip == (delay + 529) * channels &&
      skip + length + (if padding > 529 then (padding - 529) * channels else 0) == AllSamples(src.b, f, n)
    ensures info == null <==> length == 0
    ensures info != null ==>
              info.Valid() && info.kind == KindOf(At(src.b, f.offset)) && info.Contents() ==
              FirstOf(DropOf(Joined(Decoding(src, info.kind, src.initial, f.End()).frames), skip), length)
    ensures ex.Valid() && ex.src == src && ex.curSample == 0 && !ex.indexesBuilt &&
            ex.stream == KindOf(At(src.b, f.offset))
    ensures ex.startOffset == f.End() && ex.startDelay == skip && ex.samples == ex.detectedSamples == length
    ensures ex.Pending() == Yield(src, ex.stream, src.initial, f.End(), skip)
  {
    hide *;
    TagIsPlanned(src.b, f, frame, n, ext, delay, padding);
    HoldsHeader(src.b, f, frame);
    ghost var plan, kind := PlanFor(src.b, f), KindOf(At(src.b, f.offset));
    skip, length := plan.skip, plan.length.value;
    LengthOfIs(plan);
    LoadedIs(src, f);
    LoadedSamples(src, kind, f.End(), skip, length);
    ret, info := LoadBuf(buf, src);
    if info != null {
      ContentsAre(info, Loaded(src, Some(f)).1.value);
      CutAtStart(DropOf(Joined(Decoding(src, kind, src.initial, f.End()).frames), skip), length);
    }
    ex := OpenBuf(buf, src, scan);
    OpenedMeans(ex, src, f, scan);
  }

  lemma HoldsHeader(b: seq<Byte>, f: FrameRef, frame: seq<Byte>)
    requires MayHoldTag(b, f, frame)
    ensures f.End() <= |b| && HeaderAt(b, f.offset) && f.offset + HDR_SIZE <= |b| && At(b, f.offset).Valid()
  {
    hide Header.Valid, Block.Ok;
  }

  lemma LengthOfIs(plan: Plan)
    ensures plan.length.Some? ==> LengthOf(plan) == plan.length.value
  {}

  lemma CutAtStart(rest: seq<Sample>, length: nat)
    ensures length > 0 ==> CutTo(rest, 0, length) == FirstOf(rest, length)
  {}
}
