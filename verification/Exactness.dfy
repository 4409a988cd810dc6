/** When seeks, openings and lengths are exact: for every stream, the condition under which they are. */
module Exactness {
  import opened Bits
  import opened Header
  import opened Sync
  import opened Reservoir
  import opened Decoder
  import opened Index
  import opened Player
  import opened Seeking
  import opened Counting
  import opened Accuracy
  import opened Wrappers

  /**
   * A stream as the theorems are about: of one kind, playing from frame `f` on, with an index that lists its frames.
   */
  ghost predicate Readable<D(!new)>(s: Setting<D>, stream: Info, f: nat) {
    Uniform(s, stream) && TwoFrameMemory(s.dsp) && Plays(s, f) && Lists(s, f) && |s.fs| > 0
  }

  lemma ReadableMeans<D(!new)>(s: Setting<D>, stream: Info, f: nat)
    requires Readable(s, stream, f)
    ensures Uniform(s, stream) && Taken(s.b, s.fs, s.l12) && TwoFrameMemory(s.dsp) && Plays(s, f) && Lists(s, f)
    ensures f <= |s.fs| && Placed(s) && 0 < |s.ix| <= |s.fs| && SourceOf(s).MakesProgress()
  {
    hide Uniform, Taken, TwoFrameMemory, Plays, Lists, Placed, Source.MakesProgress;
    UniformIsTaken(s, stream);
    PlaysFrom(s, f);
    ListsPlaces(s, f);
    SourceMakesProgress(s);
  }

  // ---------------------------------------------------------------- where a seek ends up

  lemma {:induction false} TakenIncreases(b: seq<Byte>, fs: seq<FrameRef>, l12: Layer12, j: nat, k: nat)
    requires Taken(b, fs, l12) && j < k < |fs|
    ensures fs[j].offset < fs[k].offset
    decreases k
  {
    hide Taken, Behind, Continuation, HeaderAt, FrameSize, Follows;
    TakenFrame(b, fs, l12, k);
    TakenFrame(b, fs, l12, k - 1);
    if j < k - 1 { TakenIncreases(b, fs, l12, j, k - 1); }
  }

  /** The index of such a stream is fit for the binary search. */
  lemma IndexIsFit<D(!new)>(s: Setting<D>, stream: Info, f: nat, st: Full<D>)
    requires Readable(s, stream, f)
    ensures Taken(s.b, s.fs, s.l12) && Placed(s) && WellFormed(IndexBy(s, st)) && |IndexBy(s, st)| == |s.ix| > 0
  {
    hide Readable, Taken, Found, IndexWith, SourceOf;
    ReadableMeans(s, stream, f);
    ListedIsIndexed(s);
    SourceDecodes(s, st, 0);
    ListsPlaces(s, f);
    forall i, j | 0 <= i < j < |s.ix| ensures Listed(s)[i].offset < Listed(s)[j].offset {
      TakenIncreases(s.b, s.fs, s.l12, s.ix[i], s.ix[j]);
    }
    IndexIsWellFormed(SourceOf(s), Listed(s), st);
  }

  lemma IndexCountsFrom<D(!new)>(s: Setting<D>, stream: Info, st: Full<D>)
    requires Uniform(s, stream) && Placed(s) && Own(s, st) && |s.ix| > 0
    ensures CountsFrom(s, IndexBy(s, st), Counted(s, st))
  {
    hide Uniform, Taken, Found, Own, IndexBy, Counted, ListedTotal;
    UniformIsTaken(s, stream);
    forall t: nat | t < |s.ix| ensures EntryCounts(s, IndexBy(s, st), Counted(s, st), t) {
      IndexCounts(s, stream, st, t);
    }
  }

  /** The target and the restart that a seek to `p` chooses. */
  ghost function Chosen<D(!new)>(s: Setting<D>, stream: Info, f: nat, st: Full<D>, p: nat): (r: (nat, nat))
    requires Readable(s, stream, f)
    ensures Taken(s.b, s.fs, s.l12) && Placed(s) && Chooses(s, stream, IndexBy(s, st), p, r.0, r.1)
    ensures r.1 <= r.0 < |s.ix| && r.1 <= s.ix[r.1] < |s.fs|
  {
    ReadableMeans(s, stream, f);
    IndexIsFit(s, stream, f, st);
    ChoiceExists(s, stream, IndexBy(s, st), p);
    var t: nat, i: nat :| Chooses(s, stream, IndexBy(s, st), p, t, i);
    ChosenInside(s, stream, f, IndexBy(s, st), p, t, i);
    (t, i)
  }

  lemma ChosenInside<D(!new)>(s: Setting<D>, stream: Info, f: nat, index: seq<Entry>, p: nat, t: nat, i: nat)
    requires Taken(s.b, s.fs, s.l12) && Placed(s) && Lists(s, f) && Chooses(s, stream, index, p, t, i)
    ensures i <= t < |s.ix| && i <= s.ix[i] < |s.fs|
  {
    hide Taken, Found, Lists, RestartsAt, IsTarget;
    ListedIsIndexed(s);
    RestartInside(s.b, Listed(s), stream.layer, t, i);
    PlaceOf(s, f, i);
  }

  lemma ChosenIs<D(!new)>(s: Setting<D>, stream: Info, f: nat, st: Full<D>, p: nat, t: nat, i: nat)
    requires Readable(s, stream, f) && Placed(s) && t < |s.ix|
    requires Taken(s.b, s.fs, s.l12) && Indexed(s.b, Listed(s))
    requires IsTarget(IndexBy(s, st), p, t) && RestartsAt(s.b, Listed(s), stream.layer, t, i)
    ensures Chosen(s, stream, f, st, p) == (t, i)
  {
    hide Readable, Taken, Placed, Indexed, IsTarget, RestartsAt, IndexBy, Chosen, Listed;
    var c := Chosen(s, stream, f, st, p);
    assert Chooses(s, stream, IndexBy(s, st), p, t, i);
    ChoosesOne(s, stream, IndexBy(s, st), p, c.0, c.1, t, i);
  }

  /** The samples that the index counts before the first frame that decodes. */
  ghost function Lost<D(!new)>(s: Setting<D>, stream: Info, f: nat, st: Full<D>): nat
    requires Readable(s, stream, f)
  {
    ReadableMeans(s, stream, f);
    Total(s, Counted(s, st), f)
  }

  /** The samples of the frames before the restart that the index does not list. */
  ghost function Late<D(!new)>(s: Setting<D>, stream: Info, f: nat, st: Full<D>, p: nat): nat
    requires Readable(s, stream, f)
  {
    if p == 0 then 0 else Missing(s, Chosen(s, stream, f, st, p).1)
  }

  /** The sample of the continuous stream at which a seek to `p` ends up. */
  ghost function Landing<D(!new)>(s: Setting<D>, stream: Info, f: nat, st: Full<D>, p: nat): nat
    requires Readable(s, stream, f)
  {
    p - Min(p, Lost(s, stream, f, st)) + Late(s, stream, f, st, p)
  }

  /** What is pending after a seek to `p` with an index built with a decoder in state `st`. */
  ghost function Sought<D(!new)>(s: Setting<D>, stream: Info, f: nat, st: Full<D>, p: nat): seq<Sample>
    requires Readable(s, stream, f)
  {
    ReadableMeans(s, stream, f);
    var i := Chosen(s, stream, f, st, p).1;
    if p == 0 then Continuous(s, stream)
    else Yield(SourceOf(s), stream, SourceOf(s).initial, s.fs[s.ix[i]].offset,
               SkipFrom(SourceOf(s), IndexBy(s, st), stream.channels, i, p))
  }

  /** The seek can be made: position 0 needs no index. */
  ghost predicate Reachable<D(!new)>(s: Setting<D>, stream: Info, st: Full<D>, p: nat)
    requires Taken(s.b, s.fs, s.l12) && Placed(s)
  {
    p > 0 ==> Seekable(s, stream, IndexBy(s, st), p)
  }

  lemma SoughtIs<D(!new)>(s: Setting<D>, stream: Info, f: nat, st: Full<D>, p: nat)
    requires Readable(s, stream, f) && Own(s, st) && Taken(s.b, s.fs, s.l12) && Placed(s) && Reachable(s, stream, st, p)
    ensures Sought(s, stream, f, st, p) == DropOf(Continuous(s, stream), Landing(s, stream, f, st, p))
  {
    hide Readable, Uniform, TwoFrameMemory, Taken, Placed, Plays, Lists, Own, Continuous, Yield, SourceOf, IndexBy,
      Counted, CountsFrom, Chooses, Seekable, SkipFrom, Total, Missing, DropOf;
    ReadableMeans(s, stream, f);
    var (t, i) := Chosen(s, stream, f, st, p);
    if p > 0 {
      IndexCountsFrom(s, stream, st);
      CountedInTime(s, stream, f, st);
      IndexIsFit(s, stream, f, st);
      SeekYields(s, stream, f, IndexBy(s, st), Counted(s, st), p, t, i);
    } else {
      SmallMin(p, Lost(s, stream, f, st));
      TakeNone(Continuous(s, stream));
    }
  }

  // ---------------------------------------------------------------- positions that can be reached

  /** Up to this position a seek never drops more than an int holds. */
  const FURTHEST: nat := 2_147_483_647 - 2304 * 255

  /** No frame is missing from the index. */
  predicate Complete<D(!new)>(s: Setting<D>) { |s.ix| == |s.fs| }

  lemma CompleteMeans<D(!new)>(s: Setting<D>, f: nat, k: nat)
    requires Lists(s, f) && Complete(s) && k < |s.ix|
    ensures s.ix[k] == k
  {
    hide Lists;
    ListsPlaces(s, f);
    Spread(s.ix, 0, k);
    Spread(s.ix, k, |s.ix| - 1);
  }

  lemma CompleteFills<D(!new)>(s: Setting<D>, f: nat, t: nat, i: nat)
    requires Lists(s, f) && Complete(s) && t < |s.ix|
    ensures FillsToo(s, t, i)
  {
    hide Lists, FilledBetween;
    var m := t - Min(t, MINIMP3_PREDECODE_FRAMES);
    if i < m {
      CompleteMeans(s, f, i);
      CompleteMeans(s, f, m - 1);
    }
  }

  /** Every position of up to 2,146,896,127 samples can be reached when no frame is missing from the index. */
  lemma NearIsReachable<D(!new)>(s: Setting<D>, stream: Info, f: nat, st: Full<D>, p: nat)
    requires Readable(s, stream, f) && Own(s, st) && Complete(s) && p <= FURTHEST
    ensures Taken(s.b, s.fs, s.l12) && Placed(s) && Reachable(s, stream, st, p)
  {
    hide Readable, Uniform, TwoFrameMemory, Taken, Placed, Plays, Lists, Own, IndexBy, Counted, CountsFrom, Chooses,
      FillsToo, ListedTotal, Complete;
    ReadableMeans(s, stream, f);
    IndexIsFit(s, stream, f, st);
    forall t: nat, i: nat | Chooses(s, stream, IndexBy(s, st), p, t, i)
      ensures Fits(s, IndexBy(s, st), p, t, i)
    {
      NearFits(s, stream, f, st, p, t, i);
      CompleteFills(s, f, t, i);
    }
  }

  lemma NearFits<D(!new)>(s: Setting<D>, stream: Info, f: nat, st: Full<D>, p: nat, t: nat, i: nat)
    requires Readable(s, stream, f) && Own(s, st) && p <= FURTHEST
    requires Taken(s.b, s.fs, s.l12) && Placed(s) && Chooses(s, stream, IndexBy(s, st), p, t, i)
    ensures t < |s.ix| == |IndexBy(s, st)| && ListedTotal(s, i, t) + (p - IndexBy(s, st)[t].sample) <= INT_MAX
  {
    hide Readable, Uniform, TwoFrameMemory, Taken, Placed, Plays, Lists, Own, IndexBy, Counted, CountsFrom,
      ListedTotal, Samples, RestartsAt, Listed;
    ReadableMeans(s, stream, f);
    IndexCountsFrom(s, stream, st);
    CountedInTime(s, stream, f, st);
    ChosenInside(s, stream, f, IndexBy(s, st), p, t, i);
    var g := Counted(s, st);
    TargetIsCounted(s, stream, IndexBy(s, st), g, p, t);
    ListedIsSamples(s, stream, f, i, t);
    ListedIsSamples(s, stream, f, g, t);
    SamplesAdd(s, stream, t - g, g);
    SamplesAdd(s, stream, t - i, i);
    FewSamples(s, g);
  }

  // ---------------------------------------------------------------- when seeks are exact

  lemma SameDropIff<T>(rest: seq<T>, a: nat, b: nat)
    ensures DropOf(rest, a) == DropOf(rest, b) <==> a == b || (|rest| <= a && |rest| <= b)
  {
    assert |DropOf(rest, a)| == (if a < |rest| then |rest| - a else 0);
    assert |DropOf(rest, b)| == (if b < |rest| then |rest| - b else 0);
  }

  /**
   * One seek, in any stream: what is pending is the continuous stream from the position on if and only if as many
   * samples are missing from the index before the restart as it counts before the first frame that decodes, or
   * nothing is left.
   */
  lemma SeekIsExactAt<D(!new)>(s: Setting<D>, stream: Info, f: nat, st: Full<D>, p: nat)
    requires Readable(s, stream, f) && Own(s, st) && Taken(s.b, s.fs, s.l12) && Placed(s) && Reachable(s, stream, st, p)
    ensures Sought(s, stream, f, st, p) == DropOf(Continuous(s, stream), p) <==>
              Late(s, stream, f, st, p) == Min(p, Lost(s, stream, f, st)) ||
              (|Continuous(s, stream)| <= p && |Continuous(s, stream)| <= Landing(s, stream, f, st, p))
  {
    hide Readable, Taken, Placed, Own, Continuous, Sought, Lost, Late, DropOf, Reachable;
    ReadableMeans(s, stream, f);
    SoughtIs(s, stream, f, st, p);
    SameDropIff(Continuous(s, stream), Landing(s, stream, f, st, p), p);
  }

  /** A seek is late if and only if the frame it restarts from has frames missing from the index before it. */
  lemma LateIff<D(!new)>(s: Setting<D>, stream: Info, f: nat, st: Full<D>, p: nat)
    requires Readable(s, stream, f) && p > 0
    ensures var i := Chosen(s, stream, f, st, p).1;
      Late(s, stream, f, st, p) == 0 <==> s.ix[i] == i
  {
    hide Readable, Taken, Placed, Uniform, Samples, Chosen, Chooses, Lists, Plays, TwoFrameMemory;
    ReadableMeans(s, stream, f);
    var i := Chosen(s, stream, f, st, p).1;
    NoSamples(s);
    SamplesAdd(s, stream, 0, s.ix[i] - i);
  }

  /**
   * A seek in a stream of which the index counts from the first frame that decodes: it is exact if and only if no frame
   * before the restart is missing from the index, or nothing is left.
   */
  lemma GappedSeekIff<D(!new)>(s: Setting<D>, stream: Info, f: nat, st: Full<D>, p: nat)
    requires Readable(s, stream, f) && Own(s, st) && Taken(s.b, s.fs, s.l12) && Placed(s) && Reachable(s, stream, st, p)
    requires p > 0 && |s.ix| > 0 && Counted(s, st) == f
    ensures var i := Chosen(s, stream, f, st, p).1;
      Sought(s, stream, f, st, p) == DropOf(Continuous(s, stream), p) <==>
        s.ix[i] == i || |Continuous(s, stream)| <= p
  {
    hide Readable, Taken, Placed, Own, Continuous, Sought, Late, Lost, DropOf, Reachable, Chosen, Counted;
    ReadableMeans(s, stream, f);
    LostIff(s, stream, f, st);
    LateIff(s, stream, f, st, p);
    SeekIsExactAt(s, stream, f, st, p);
  }

  lemma NeverLate<D(!new)>(s: Setting<D>, stream: Info, f: nat, st: Full<D>, p: nat)
    requires Readable(s, stream, f) && Complete(s)
    ensures Late(s, stream, f, st, p) == 0
  {
    hide Readable, Taken, Placed, Missing, Chosen, Chooses, Complete, Lists;
    ReadableMeans(s, stream, f);
    if p > 0 {
      var i := Chosen(s, stream, f, st, p).1;
      CompleteMeans(s, f, i);
      NoneMissing(s, i);
    }
  }

  lemma NoneMissing<D(!new)>(s: Setting<D>, i: nat)
    requires Taken(s.b, s.fs, s.l12) && i < |s.ix| && s.ix[i] == i <= |s.fs|
    ensures Missing(s, i) == 0
  {
    hide Taken, Samples;
    NoSamples(s);
  }

  /** Nothing is lost exactly when the index counts from the first frame that decodes. */
  lemma LostIff<D(!new)>(s: Setting<D>, stream: Info, f: nat, st: Full<D>)
    requires Readable(s, stream, f) && Own(s, st)
    ensures Placed(s) && |s.ix| > 0 && Counted(s, st) <= f && (Lost(s, stream, f, st) == 0 <==> Counted(s, st) == f)
    ensures f <= |s.fs| && Taken(s.b, s.fs, s.l12) && Lost(s, stream, f, st) <= Total(s, 0, f)
    ensures f == 0 ==> Lost(s, stream, f, st) == 0
    ensures f >= MAX_PROBED ==> Lost(s, stream, f, st) > 0
  {
    hide Readable, Taken, Placed, Uniform, TwoFrameMemory, Plays, Lists, Counted, Total, Own;
    ReadableMeans(s, stream, f);
    CountedInTime(s, stream, f, st);
    var g := Counted(s, st);
    TotalSplits(s, 0, g, f);
    if g < f { TotalFromLeft(s, g, f); } else { NoTotal(s, f); }
  }

  /** Every seek to a position from `d` on ends up there. */
  ghost predicate AllExact<D(!new)>(s: Setting<D>, stream: Info, f: nat, st: Full<D>, d: nat)
    requires Readable(s, stream, f)
  {
    ReadableMeans(s, stream, f);
    forall p: nat :: d <= p && Reachable(s, stream, st, p) ==>
      Sought(s, stream, f, st, p) == DropOf(Continuous(s, stream), p)
  }

  /**
   * All seeks of a reader with start delay `d`, which are to positions from `d` on, are exact if and only if the index
   * counts from the first frame that decodes, or the stream ends before the delay does.
   */
  lemma SeekIsExactIff<D(!new)>(s: Setting<D>, stream: Info, f: nat, st: Full<D>, d: nat)
    requires Readable(s, stream, f) && Own(s, st) && Complete(s) && d < FURTHEST
    ensures Placed(s) && |s.ix| > 0
    ensures AllExact(s, stream, f, st, d) <==>
              Counted(s, st) == f || |Continuous(s, stream)| <= d - Min(d, Lost(s, stream, f, st))
  {
    hide Readable, Taken, Placed, Uniform, TwoFrameMemory, Plays, Lists, Counted, Own, Complete, Continuous, Sought,
      Lost, Late, DropOf, Reachable;
    ReadableMeans(s, stream, f);
    LostIff(s, stream, f, st);
    var (rest, lost) := (Continuous(s, stream), Lost(s, stream, f, st));
    if lost == 0 || |rest| <= d - Min(d, lost) {
      forall p: nat | d <= p && Reachable(s, stream, st, p) ensures Sought(s, stream, f, st, p) == DropOf(rest, p) {
        SeekIsExactAt(s, stream, f, st, p);
        NeverLate(s, stream, f, st, p);
      }
    } else {
      var p := if d == 0 then 1 else d;
      NearIsReachable(s, stream, f, st, p);
      SeekIsExactAt(s, stream, f, st, p);
      NeverLate(s, stream, f, st, p);
      assert Sought(s, stream, f, st, p) != DropOf(rest, p);
    }
  }

  /**
   * The index of a freshly opened stream counts the samples that are yielded, and every seek with it is exact, if and
   * only if one of the first 256 frames decodes. Otherwise it counts the frames from the 256th on, too.
   */
  lemma FreshIndexIff<D(!new)>(s: Setting<D>, stream: Info, f: nat)
    requires Readable(s, stream, f) && f < |s.fs| && Complete(s)
    ensures Taken(s.b, s.fs, s.l12) && Placed(s) && |s.ix| > 0
    ensures CountsFrom(s, IndexBy(s, SourceOf(s).initial), Min(f, 255))
    ensures Counted(s, SourceOf(s).initial) == Min(f, 255)
    ensures AllExact(s, stream, f, SourceOf(s).initial, 0) <==> f < 256
  {
    hide Readable, Taken, Placed, Uniform, TwoFrameMemory, Plays, Lists, Counted, Own, Complete, Continuous, Lost,
      AllExact, IndexBy, SourceOf, CountsFrom;
    ReadableMeans(s, stream, f);
    StartIsFresh(s);
    FreshCounted(s, stream, f);
    ListsPlaces(s, f);
    IndexCountsFrom(s, stream, SourceOf(s).initial);
    ContinuousLength(s, stream, f);
    SeekIsExactIff(s, stream, f, SourceOf(s).initial, 0);
    SmallMin(0, Lost(s, stream, f, SourceOf(s).initial));
  }

  // ---------------------------------------------------------------- a stream just opened

  /** A reader just opened drops the start delay; leading frames that do not decode use up their part of it. */
  lemma OpenYields<D(!new)>(s: Setting<D>, stream: Info, f: nat, delay: nat)
    requires Uniform(s, stream) && Plays(s, f) && |s.fs| > 0
    ensures SourceOf(s).MakesProgress() && f <= |s.fs| && Taken(s.b, s.fs, s.l12)
    ensures Yield(SourceOf(s), stream, SourceOf(s).initial, s.fs[0].offset, delay)
         == DropOf(Continuous(s, stream), delay - Min(delay, Total(s, 0, f)))
  {
    hide *;
    UniformIsTaken(s, stream);
    FirstIsFound(s.b, s.fs, s.l12);
    FromRestart(s, stream, f, 0, delay);
    LeftOfContinuous(s, stream, f, 0, delay);
  }

  /** What a reader just opened with a start delay gives. */
  ghost function Opened<D(!new)>(s: Setting<D>, stream: Info, delay: nat): seq<Sample>
    requires |s.fs| > 0
  {
    SourceMakesProgress(s);
    Yield(SourceOf(s), stream, SourceOf(s).initial, s.fs[0].offset, delay)
  }

  /**
   * One position, in any stream: reading on from the opening gives what a seek to it gives if and only if both are
   * there.
   */
  lemma OpenAgreesAt<D(!new)>(s: Setting<D>, stream: Info, f: nat, st: Full<D>, delay: nat, p: nat)
    requires Readable(s, stream, f) && Own(s, st) && Taken(s.b, s.fs, s.l12) && Placed(s)
    requires f <= |s.fs| && Reachable(s, stream, st, p + delay)
    ensures var ahead := p + (delay - Min(delay, Total(s, 0, f)));
      DropOf(Opened(s, stream, delay), p) == Sought(s, stream, f, st, p + delay) <==>
        ahead == Landing(s, stream, f, st, p + delay) ||
        (|Continuous(s, stream)| <= ahead && |Continuous(s, stream)| <= Landing(s, stream, f, st, p + delay))
  {
    hide Readable, Taken, Placed, Uniform, TwoFrameMemory, Plays, Lists, Own, Continuous, Sought, Landing, DropOf,
      Reachable, SourceOf, Total;
    ReadableMeans(s, stream, f);
    SoughtIs(s, stream, f, st, p + delay);
    OpenYields(s, stream, f, delay);
    SmallMin(delay, Total(s, 0, f));
    var rest := Continuous(s, stream);
    DropTwice(rest, delay - Min(delay, Total(s, 0, f)), p);
    SameDropIff(rest, p + (delay - Min(delay, Total(s, 0, f))), Landing(s, stream, f, st, p + delay));
  }

  lemma DropTwice<T>(rest: seq<T>, m: nat, n: nat)
    ensures DropOf(DropOf(rest, m), n) == DropOf(rest, n + m)
  {}

  /** Reading on from the opening gives what seeks give, at every position. */
  ghost predicate OpeningAgrees<D(!new)>(s: Setting<D>, stream: Info, f: nat, st: Full<D>, delay: nat)
    requires Readable(s, stream, f)
  {
    ReadableMeans(s, stream, f);
    forall p: nat :: Reachable(s, stream, st, p + delay) ==>
      DropOf(Opened(s, stream, delay), p) == Sought(s, stream, f, st, p + delay)
  }

  /**
   * Reading on from the opening and reading after a seek to the same position give the same samples for all positions
   * if and only if the failing leading frames use up as much of the delay as the index counts before the first frame
   * that decodes, or the stream ends before the rest of the delay does.
   */
  lemma OpenAgreesIff<D(!new)>(s: Setting<D>, stream: Info, f: nat, st: Full<D>, delay: nat)
    requires Readable(s, stream, f) && Own(s, st) && Complete(s) && delay < FURTHEST
    ensures Taken(s.b, s.fs, s.l12) && f <= |s.fs|
    ensures var used := Min(delay, Total(s, 0, f));
      OpeningAgrees(s, stream, f, st, delay) <==>
        used == Lost(s, stream, f, st) || |Continuous(s, stream)| <= delay - used
  {
    hide Readable, Taken, Placed, Uniform, TwoFrameMemory, Plays, Lists, Counted, Own, Complete, Continuous, Sought,
      Lost, Late, DropOf, Reachable, Total, Opened;
    ReadableMeans(s, stream, f);
    LostIff(s, stream, f, st);
    var (rest, lost, used) := (Continuous(s, stream), Lost(s, stream, f, st), Min(delay, Total(s, 0, f)));
    if used == lost || |rest| <= delay - used {
      forall p: nat | Reachable(s, stream, st, p + delay)
        ensures DropOf(Opened(s, stream, delay), p) == Sought(s, stream, f, st, p + delay)
      {
        OpenAgreesAt(s, stream, f, st, delay, p);
        NeverLate(s, stream, f, st, p + delay);
      }
    } else {
      var p: nat := if used == Min(delay, lost) then 1 else 0;
      NearIsReachable(s, stream, f, st, p + delay);
      OpenAgreesAt(s, stream, f, st, delay, p);
      NeverLate(s, stream, f, st, p + delay);
      assert DropOf(Opened(s, stream, delay), p) != Sought(s, stream, f, st, p + delay);
    }
  }

  // ---------------------------------------------------------------- the length of a scanned stream

  lemma {:induction false} LengthCounted<S(!new)>(src: Source<S>, fs: seq<FrameRef>, p: Progress<S>, k: nat)
    requires Indexed(src.b, fs) && k <= |fs| && (p.started || k + 1 >= MAX_PROBED)
    ensures CountFrom(src, fs, p, k) == p.samples + NominalFrom(src.b, fs, k, |fs|)
    decreases |fs| - k
  {
    if k < |fs| {
      hide Nominal;
      LengthCounted(src, fs, Probe(src, fs, p, k), k + 1);
      NominalFromLeft(src.b, fs, k, |fs|);
    }
  }

  /** Probing frame `k` in the run from the start. */
  lemma ProbeInRun<D(!new)>(s: Setting<D>, stream: Info, f: nat, k: nat)
    requires Uniform(s, stream) && Plays(s, f) && Lists(s, f) && k <= f && k + 1 < MAX_PROBED && k < |s.ix|
    ensures Placed(s) && k < |s.fs| && Indexed(s.b, Listed(s)) && SourceOf(s).b == s.b
    ensures Probe(SourceOf(s), Listed(s), Progress(FullAt(s, 0, k), 0, false), k)
         == Progress(FullAt(s, 0, k + 1), if f <= k then Count(s, k) else 0, f <= k)
  {
    hide Taken, Uniform, Plays, Lists, FullAt, SourceOf, Found, FullDecode, PcmAt, Nominal, DecodesAt, CalledAt;
    UniformIsTaken(s, stream);
    ListsPlaces(s, f);
    ListedIsIndexed(s);
    assert InPlace(s.ix, k);
    SourceDecodes(s, FullAt(s, 0, k), s.fs[k].offset);
    CalledInPlace(s, f, k);
    FirstIsFound(s.b, s.fs, s.l12);
    OneFullDecode(s, 0, k);
    PcmLength(s, stream, 0, k);
  }

  /** The length counted from listed frame `k` on, when none has given samples before. */
  ghost function LengthFrom<D(!new)>(s: Setting<D>, k: nat): nat
    requires Taken(s.b, s.fs, s.l12) && Placed(s) && k <= |s.ix| && k <= |s.fs|
  {
    ListedIsIndexed(s);
    CountFrom(SourceOf(s), Listed(s), Progress(FullAt(s, 0, k), 0, false), k)
  }

  lemma {:induction false} LengthOfRun<D(!new)>(s: Setting<D>, stream: Info, f: nat, k: nat)
    requires Taken(s.b, s.fs, s.l12) && Placed(s) && k <= |s.ix| && k <= |s.fs|
    requires Uniform(s, stream) && Plays(s, f) && Lists(s, f) && f < |s.fs| && k <= Min(f, MAX_PROBED - 1)
    ensures LengthFrom(s, k) == ListedTotal(s, Min(f, MAX_PROBED - 1), |s.ix|)
    decreases f - k
  {
    hide Taken, Uniform, Plays, Lists, FullAt, SourceOf, Found, Nominal, NominalFrom, Probe, Indexed;
    ListsPlaces(s, f);
    ListedIsIndexed(s);
    SourceDecodes(s, FullAt(s, 0, k), s.fs[k].offset);
    assert InPlace(s.ix, f);
    if k + 1 >= MAX_PROBED {
      LengthCounted(SourceOf(s), Listed(s), Progress(FullAt(s, 0, k), 0, false), k);
    } else {
      ProbeInRun(s, stream, f, k);
      if k < f {
        LengthOfRun(s, stream, f, k + 1);
      } else {
        LengthCounted(SourceOf(s), Listed(s), Progress(FullAt(s, 0, k + 1), Count(s, k), true), k + 1);
        ListedFromLeft(s, k, |s.ix|);
        assert InPlace(s.ix, k);
      }
    }
  }

  /** The length that a scan finds. */
  ghost function ScannedLength<D(!new)>(s: Setting<D>): nat
    requires Taken(s.b, s.fs, s.l12) && Placed(s)
  {
    ListedIsIndexed(s);
    CountWith(SourceOf(s), Listed(s), SourceOf(s).initial)
  }

  lemma ScanIsLength<D(!new)>(s: Setting<D>)
    requires Taken(s.b, s.fs, s.l12) && Placed(s)
    ensures ScannedLength(s) == LengthFrom(s, 0)
  {
    hide Taken, Placed, CountFrom, FullAt, SourceOf;
    StartIsFresh(s);
  }

  /**
   * The length found by scanning a stream is the number of samples it yields, plus those counted before the first
   * frame that decodes, less those of the frames missing from the index. It is right if and only if there are as many
   * frames of the one sort as of the other.
   */
  lemma ScanCountsSamples<D(!new)>(s: Setting<D>, stream: Info, f: nat)
    requires Readable(s, stream, f) && f < |s.fs|
    ensures Taken(s.b, s.fs, s.l12) && Placed(s) && |s.ix| <= |s.fs|
    ensures var early, missing := f - Min(f, MAX_PROBED - 1), |s.fs| - |s.ix|;
      ScannedLength(s) + Samples(s, missing) == |Continuous(s, stream)| + Samples(s, early) &&
      (ScannedLength(s) == |Continuous(s, stream)| <==> missing == early)
  {
    hide *;
    ReadableMeans(s, stream, f);
    StartIsListed(s, f);
    ScanIsLength(s);
    LengthOfRun(s, stream, f, 0);
    ContinuousLength(s, stream, f);
    var g := Min(f, MAX_PROBED - 1);
    ListedIsSamples(s, stream, f, g, |s.ix|);
    TotalIsSamples(s, stream, f, |s.fs|);
    SamplesBalance(s, stream, |s.ix| - g, |s.fs| - |s.ix|, |s.fs| - f, f - g);
  }

  lemma StartIsListed<D(!new)>(s: Setting<D>, f: nat)
    requires Lists(s, f) && f < |s.fs|
    ensures f < |s.ix| && 0 <= Min(f, MAX_PROBED - 1) <= f
  {
    hide Lists, Found;
    ListsPlaces(s, f);
    assert InPlace(s.ix, f);
  }

  lemma SamplesBalance<D(!new)>(s: Setting<D>, stream: Info, found: nat, missing: nat, yielded: nat, early: nat)
    requires Uniform(s, stream) && found + missing == yielded + early <= |s.fs|
    ensures Taken(s.b, s.fs, s.l12)
    ensures Samples(s, found) + Samples(s, missing) == Samples(s, yielded) + Samples(s, early)
    ensures Samples(s, found) == Samples(s, yielded) <==> missing == early
  {
    hide Taken, Uniform, Samples;
    UniformIsTaken(s, stream);
    SamplesAdd(s, stream, found, missing);
    SamplesAdd(s, stream, yielded, early);
    if early < missing { SamplesAdd(s, stream, early, missing - early); }
    if missing < early { SamplesAdd(s, stream, missing, early - missing); }
  }
}
