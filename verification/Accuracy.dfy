/**
 * What a seek in sample mode finds: the stream is read from the position asked for, short of the samples counted before
 * the first frame that decodes and late by those of the frames that are missing from the index.
 */
module Accuracy {
  import opened Bits
  import opened Header
  import opened Sync
  import opened Reservoir
  import opened Decoder
  import opened Index
  import opened Player
  import opened Seeking
  import opened Counting
  import opened Wrappers

  // ---------------------------------------------------------------- what a skip leaves of the continuous stream

  /** The samples the whole stream yields when it is decoded from its first frame. */
  ghost function Continuous<D(!new)>(s: Setting<D>, stream: Info): seq<Sample>
    requires |s.fs| > 0
  {
    SourceMakesProgress(s);
    Yield(SourceOf(s), stream, SourceOf(s).initial, s.fs[0].offset, 0)
  }

  lemma FromRestart<D(!new)>(s: Setting<D>, stream: Info, f: nat, i: nat, skip: nat)
    requires Uniform(s, stream) && Plays(s, f) && i < |s.fs| && Found(s.b, s.fs[i])
    ensures SourceOf(s).MakesProgress()
    ensures Yield(SourceOf(s), stream, SourceOf(s).initial, s.fs[i].offset, skip) == YieldAt(s, i, i, skip)
  {
    hide Uniform, Taken, Plays, Found, Yield, YieldAt, FullAt, SourceOf;
    UniformIsTaken(s, stream);
    StartIsFresh(s);
    YieldOfRun(s, stream, f, i, i, skip);
  }

  lemma FromStart<D(!new)>(s: Setting<D>, stream: Info, f: nat)
    requires Uniform(s, stream) && Plays(s, f) && |s.fs| > 0
    ensures Continuous(s, stream) == YieldAt(s, 0, 0, 0)
  {
    hide Uniform, Taken, Plays, Found, Yield, YieldAt, SourceOf;
    UniformIsTaken(s, stream);
    FirstIsFound(s.b, s.fs, s.l12);
    FromRestart(s, stream, f, 0, 0);
  }

  /**
   * Samples counted before the first frame that decodes are never yielded; frames that fail use up their part of a
   * skip.
   */
  lemma {:induction false} SkipBefore<D(!new)>(s: Setting<D>, stream: Info, f: nat, k: nat, y: nat)
    requires Uniform(s, stream) && Plays(s, f) && k <= f
    ensures k <= |s.fs| && f <= |s.fs| && YieldAt(s, 0, k, y) == YieldAt(s, 0, f, y - Min(y, Total(s, k, f)))
    decreases f - k
  {
    hide Taken, Count, Uniform, Kept, Dropped, DecodesAt, Total, Plays;
    UniformIsTaken(s, stream);
    PlaysFrom(s, f);
    if k < f {
      DecodesLater(UnitsOf(s), f, k);
      OneFrameDropped(s, stream, 0, k, y);
      TotalFromLeft(s, k, f);
      SkipBefore(s, stream, f, k + 1, y - Dropped(s, 0, k, y));
      var rest := YieldAt(s, 0, k + 1, y - Dropped(s, 0, k, y));
      assert [] + rest == rest;
    } else {
      NoTotal(s, k);
    }
  }

  lemma PlaysFrom<D(!new)>(s: Setting<D>, f: nat)
    requires Taken(s.b, s.fs, s.l12) && Plays(s, f)
    ensures f <= |s.fs| && DecodesFrom(UnitsOf(s), f)
  {
    hide Taken, UnitsOf, DecodesFrom;
  }

  lemma NoTotal<D(!new)>(s: Setting<D>, k: nat)
    requires Taken(s.b, s.fs, s.l12) && k <= |s.fs|
    ensures Total(s, k, k) == 0
  {
    hide Found, TakenAt;
  }

  /** What is left from frame `t` on after a skip of `y`, in terms of the continuous stream. */
  lemma LeftOfContinuous<D(!new)>(s: Setting<D>, stream: Info, f: nat, t: nat, y: nat)
    requires Uniform(s, stream) && Plays(s, f) && |s.fs| > 0 && t <= |s.fs|
    ensures f <= |s.fs| && YieldAt(s, 0, t, y)
         == DropOf(Continuous(s, stream), if t <= f then y - Min(y, Total(s, t, f)) else Total(s, f, t) + y)
  {
    hide *;
    UniformIsTaken(s, stream);
    PlaysFrom(s, f);
    FromStart(s, stream, f);
    SkipBefore(s, stream, f, 0, 0);
    if t <= f {
      SkipBefore(s, stream, f, t, y);
      SmallMin(y, Total(s, t, f));
      DropWhileReading(s, stream, f, f, y - Min(y, Total(s, t, f)));
    } else {
      SkipWholeFrames(s, stream, 0, f, t, y);
      DropWhileReading(s, stream, f, f, Total(s, f, t) + y);
    }
    SmallMin(0, Total(s, 0, f));
  }

  lemma SmallMin(a: nat, b: nat)
    ensures 0 <= Min(a, b) <= a && Min(a, b) <= b && Min(0, b) == 0
  {}

  /** The continuous stream has the samples of the frames that decode. */
  lemma {:induction false} YieldLength<D(!new)>(s: Setting<D>, stream: Info, f: nat, k: nat)
    requires Uniform(s, stream) && f <= k <= |s.fs| && DecodesFrom(UnitsOf(s), f)
    ensures |YieldAt(s, 0, k, 0)| == Total(s, k, |s.fs|)
    decreases |s.fs| - k
  {
    hide Taken, Uniform, DecodesAt, DecodesFrom, Nominal, Kept, Total, Dropped, PcmAt;
    UniformIsTaken(s, stream);
    if k < |s.fs| {
      YieldLength(s, stream, f, k + 1);
      OneFrameDropped(s, stream, 0, k, 0);
      DecodesLater(UnitsOf(s), f, k);
      TotalFromLeft(s, k, |s.fs|);
    } else {
      NoTotal(s, k);
    }
  }

  lemma ContinuousLength<D(!new)>(s: Setting<D>, stream: Info, f: nat)
    requires Uniform(s, stream) && Plays(s, f) && |s.fs| > 0
    ensures f <= |s.fs| && |Continuous(s, stream)| == Total(s, f, |s.fs|)
    ensures f < |s.fs| ==> Continuous(s, stream) != []
  {
    hide Uniform, Taken, Plays, Continuous, YieldAt, DecodesFrom, Total, NominalFrom, Units;
    UniformIsTaken(s, stream);
    PlaysFrom(s, f);
    FromStart(s, stream, f);
    SkipBefore(s, stream, f, 0, 0);
    SmallMin(0, Total(s, 0, f));
    YieldLength(s, stream, f, f);
    if f < |s.fs| { TotalFromLeft(s, f, |s.fs|); }
  }

  // ---------------------------------------------------------------- sums over frames of one kind

  /** The samples of `n` frames, whichever they are. */
  ghost function Samples<D(!new)>(s: Setting<D>, n: nat): nat
    requires Taken(s.b, s.fs, s.l12) && n <= |s.fs|
  {
    Total(s, 0, n)
  }

  lemma SamplesStep<D(!new)>(s: Setting<D>, n: nat)
    requires Taken(s.b, s.fs, s.l12) && n < |s.fs|
    ensures Samples(s, 0) == 0 && Samples(s, n + 1) == Samples(s, n) + Count(s, n)
  {
    hide Found, TakenAt, Nominal;
  }

  lemma {:induction false} TotalIsSamples<D(!new)>(s: Setting<D>, stream: Info, a: nat, t: nat)
    requires Uniform(s, stream) && a <= t <= |s.fs|
    ensures Total(s, a, t) == Samples(s, t - a)
    decreases t
  {
    hide Taken, Uniform, Count, Samples;
    UniformIsTaken(s, stream);
    if a < t {
      TotalIsSamples(s, stream, a, t - 1);
      TotalOneMore(s, a, t - 1);
      SamplesStep(s, t - 1 - a);
      SameCount(s, stream, t - 1, t - 1 - a);
    } else {
      NoTotal(s, a);
      NoSamples(s);
    }
  }

  lemma NoSamples<D(!new)>(s: Setting<D>)
    requires Taken(s.b, s.fs, s.l12)
    ensures Samples(s, 0) == 0
  {
    hide Found, TakenAt;
  }

  lemma TotalOneMore<D(!new)>(s: Setting<D>, g: nat, i: nat)
    requires Taken(s.b, s.fs, s.l12) && g <= i < |s.fs|
    ensures Total(s, g, i + 1) == Total(s, g, i) + Count(s, i) > 0
  {
    hide Found, TakenAt, Nominal;
  }

  lemma {:induction false} ListedIsSamples<D(!new)>(s: Setting<D>, stream: Info, f: nat, a: nat, t: nat)
    requires Uniform(s, stream) && Lists(s, f) && t <= |s.ix|
    ensures Placed(s) && |s.ix| <= |s.fs| && ListedTotal(s, a, t) == Samples(s, if a <= t then t - a else 0)
    decreases t
  {
    hide Taken, Uniform, Count, Samples, Found, NominalFrom, Lists, Nominal;
    UniformIsTaken(s, stream);
    ListsPlaces(s, f);
    NoSamples(s);
    ListedTotalStep(s, a, t);
    if a < t {
      ListedIsSamples(s, stream, f, a, t - 1);
      SamplesStep(s, t - 1 - a);
      SameCount(s, stream, s.ix[t - 1], t - 1 - a);
    }
  }

  lemma ListedTotalStep<D(!new)>(s: Setting<D>, a: nat, t: nat)
    requires Taken(s.b, s.fs, s.l12) && Placed(s) && t <= |s.ix|
    ensures t <= a ==> ListedTotal(s, a, t) == 0
    ensures a < t ==> ListedTotal(s, a, t) == ListedTotal(s, a, t - 1) + Count(s, s.ix[t - 1])
  {
    hide Found, TakenAt, Nominal;
    ListedIsIndexed(s);
  }

  /** Sums of samples are sums of frames. */
  lemma SamplesAdd<D(!new)>(s: Setting<D>, stream: Info, m: nat, n: nat)
    requires Uniform(s, stream) && m + n <= |s.fs|
    ensures Samples(s, m + n) == Samples(s, m) + Samples(s, n)
    ensures n > 0 ==> Samples(s, n) > 0
  {
    hide Taken, Uniform;
    UniformIsTaken(s, stream);
    TotalSplits(s, 0, m, m + n);
    TotalIsSamples(s, stream, m, m + n);
    if n > 0 { TotalOneMore(s, 0, n - 1); }
  }

  /** A frame has at most 1152 samples in each of two channels. */
  lemma {:induction false} FewSamples<D(!new)>(s: Setting<D>, n: nat)
    requires Taken(s.b, s.fs, s.l12) && n <= |s.fs|
    ensures Samples(s, n) <= 2304 * n
  {
    hide Taken, Samples, Header.FrameSamples, Header.Channels;
    NoSamples(s);
    if n > 0 {
      FewSamples(s, n - 1);
      SamplesStep(s, n - 1);
      FewInFrame(s, n - 1);
    }
  }

  lemma FewInFrame<D(!new)>(s: Setting<D>, k: nat)
    requires Taken(s.b, s.fs, s.l12) && k < |s.fs|
    ensures Count(s, k) <= 2304
  {
    hide Found, TakenAt;
  }

  // ---------------------------------------------------------------- the restart

  /** The listed frame that a seek to `position` takes for its target, and the one it restarts from. */
  ghost predicate Chooses<D(!new)>(s: Setting<D>, stream: Info, index: seq<Entry>, position: nat, t: nat, i: nat)
    requires Taken(s.b, s.fs, s.l12) && Placed(s)
  {
    ListedIsIndexed(s);
    t < |s.ix| && IsTarget(index, position, t) && RestartsAt(s.b, Listed(s), stream.layer, t, i)
  }

  lemma ChoosesOne<D(!new)>(s: Setting<D>, stream: Info, index: seq<Entry>, position: nat, t: nat, i: nat, u: nat,
                            j: nat)
    requires Taken(s.b, s.fs, s.l12) && Placed(s)
    requires Chooses(s, stream, index, position, t, i) && Chooses(s, stream, index, position, u, j)
    ensures t == u && i == j
  {
    hide Taken, Found, Indexed, BackFillStops, Listed;
    ListedIsIndexed(s);
    if stream.layer == 3 && t > 0 {
      BackFillStopsOnce(s.b, Listed(s), i, j, t - Min(t, MINIMP3_PREDECODE_FRAMES));
    }
  }

  /** A seek with a position after 0 always finds both. */
  lemma ChoiceExists<D(!new)>(s: Setting<D>, stream: Info, index: seq<Entry>, position: nat)
    requires Taken(s.b, s.fs, s.l12) && Placed(s) && WellFormed(index) && |index| == |s.ix| > 0
    ensures exists t: nat, i: nat :: Chooses(s, stream, index, position, t, i)
  {
    hide Taken, Found, Indexed, BackFillStops, IsTarget, WellFormed;
    ListedIsIndexed(s);
    var t := TargetExists(index, position, |index| - 1);
    var m := t - Min(t, MINIMP3_PREDECODE_FRAMES);
    var i := m;
    if stream.layer == 3 && t > 0 {
      i := StopExists(s.b, Listed(s), m, m);
    }
    assert Chooses(s, stream, index, position, t, i);
  }

  lemma {:induction false} TargetExists(index: seq<Entry>, position: nat, last: nat) returns (t: nat)
    requires WellFormed(index) && last < |index| && forall j :: last < j < |index| ==> index[j].sample > position
    ensures t < |index| && IsTarget(index, position, t)
    decreases last
  {
    if index[last].sample <= position { t := last; } else { t := TargetExists(index, position, last - 1); }
  }

  lemma {:induction false} StopExists(b: seq<Byte>, fs: seq<FrameRef>, j: nat, m: nat) returns (i: nat)
    requires Indexed(b, fs) && j <= m <= |fs|
    requires forall k :: j <= k < m ==> !SideInfoFails(b, fs[k])
    requires forall k :: j < k <= m ==> Fill(b, fs, k, m) < MAX_BITRESERVOIR_BYTES
    ensures BackFillStops(b, fs, i, m)
    decreases j
  {
    hide SideInfoFails, FillBytes;
    if j == 0 || Fill(b, fs, j, m) >= MAX_BITRESERVOIR_BYTES {
      i := j;
    } else if SideInfoFails(b, fs[j - 1]) {
      i := j - 1;
    } else {
      i := StopExists(b, fs, j - 1, m);
    }
  }

  /** The place, among the frames taken, from which as many frames as are listed from `i` to `t` are passed. */
  ghost function LandsAt<D(!new)>(s: Setting<D>, t: nat, i: nat): nat
    requires i <= t && i < |s.ix|
  {
    s.ix[i] + (t - i)
  }

  /**
   * When frames are missing among those the back-fill has counted, the frames taken instead fill the reservoir, too.
   * When none are missing there is nothing to ask for.
   */
  ghost predicate FillsToo<D(!new)>(s: Setting<D>, t: nat, i: nat)
    requires t < |s.ix|
  {
    var m := t - Min(t, MINIMP3_PREDECODE_FRAMES);
    i < m && s.ix[m - 1] != s.ix[i] + (m - 1 - i) ==> FilledBetween(s, s.ix[i], LandsAt(s, m, i))
  }

  ghost predicate FilledBetween<D(!new)>(s: Setting<D>, a: nat, m: nat) {
    Taken(s.b, s.fs, s.l12) && a <= m <= |s.fs| && Filled(UnitsOf(s), a, m)
  }

  /** The samples to drop from the frame chosen fit an int, and the frames decoded fill the reservoir. */
  ghost predicate Seekable<D(!new)>(s: Setting<D>, stream: Info, index: seq<Entry>, position: nat)
    requires Taken(s.b, s.fs, s.l12) && Placed(s) && |index| == |s.ix|
  {
    forall t: nat, i: nat :: Chooses(s, stream, index, position, t, i) ==> Fits(s, index, position, t, i)
  }

  ghost predicate Fits<D(!new)>(s: Setting<D>, index: seq<Entry>, position: nat, t: nat, i: nat)
    requires Taken(s.b, s.fs, s.l12) && Placed(s)
  {
    t < |s.ix| == |index| && ListedTotal(s, i, t) + (position - index[t].sample) <= INT_MAX && FillsToo(s, t, i)
  }

  lemma {:induction false} SameFill(b: seq<Byte>, fs: seq<FrameRef>, gs: seq<FrameRef>, i: nat, m: nat, j: nat)
    requires Indexed(b, fs) && Indexed(b, gs) && i <= m <= |fs| && j + (m - i) <= |gs|
    requires forall k :: i <= k < m ==> fs[k] == gs[j + (k - i)]
    ensures Fill(b, fs, i, m) == Fill(b, gs, j, j + (m - i))
    decreases m - i
  {
    hide FillBytes, Indexed;
    if i < m { SameFill(b, fs, gs, i + 1, m, j + 1); }
  }

  /** Two frames before the target, or further back by the back-fill, the restart is filled. */
  lemma RestartIsFilled<D(!new)>(s: Setting<D>, stream: Info, f: nat, t: nat, i: nat)
    requires Uniform(s, stream) && Lists(s, f) && Placed(s) && t < |s.ix|
    requires Indexed(s.b, Listed(s)) && RestartsAt(s.b, Listed(s), stream.layer, t, i) && FillsToo(s, t, i)
    ensures var m := t - Min(t, MINIMP3_PREDECODE_FRAMES);
      i <= m && LandsAt(s, m, i) <= |s.fs| && Filled(UnitsOf(s), s.ix[i], LandsAt(s, m, i))
  {
    hide Uniform, Taken, Found, Lists, BackFilled, Filled, Indexed, RestartsAt;
    UniformIsTaken(s, stream);
    ListsPlaces(s, f);
    RestartInside(s.b, Listed(s), stream.layer, t, i);
    var m := t - Min(t, MINIMP3_PREDECODE_FRAMES);
    Spread(s.ix, i, m);
    if i == 0 {
      assert InPlace(s.ix, 0);
      FilledFromStart(UnitsOf(s), LandsAt(s, m, i));
    } else if stream.layer != 3 {
      FilledAnyway(s, stream, s.ix[i], LandsAt(s, m, i));
    } else if i < m && s.ix[m - 1] == s.ix[i] + (m - 1 - i) {
      FilledInRow(s, stream, f, i, m);
    }
  }

  lemma RestartInside(b: seq<Byte>, fs: seq<FrameRef>, layer: nat, t: nat, i: nat)
    requires Indexed(b, fs) && t < |fs| && RestartsAt(b, fs, layer, t, i)
    ensures var m := t - Min(t, MINIMP3_PREDECODE_FRAMES);
      i <= m && (layer == 3 && 0 < i ==> i < m && BackFilled(b, fs, i, m))
  {
    hide SideInfoFails, FillBytes, Indexed;
  }

  lemma FilledFromStart(us: seq<Unit>, m: nat)
    requires m <= |us|
    ensures Filled(us, 0, m)
  {}

  lemma FilledAnyway<D(!new)>(s: Setting<D>, stream: Info, i: nat, m: nat)
    requires Uniform(s, stream) && stream.layer != 3 && i <= m <= |s.fs|
    ensures Filled(UnitsOf(s), i, m)
  {
    hide Taken, Uniform, UnitOf, Continuation, Unbroken, Stream;
    UniformIsTaken(s, stream);
    forall k | 0 <= k < |s.fs| && !UnitsOf(s)[k].Corrupt? ensures UnitsOf(s)[k].frame.begin == 0 {
      UnitsAre(s.b, s.fs, s.l12, k);
      KindOfFrame(s, stream, k);
    }
  }

  /** No frame is missing among those counted. */
  lemma FilledInRow<D(!new)>(s: Setting<D>, stream: Info, f: nat, i: nat, m: nat)
    requires Uniform(s, stream) && stream.layer == 3 && Lists(s, f) && Placed(s) && 0 < i < m <= |s.ix|
    requires s.ix[m - 1] == s.ix[i] + (m - 1 - i) && Indexed(s.b, Listed(s)) && BackFilled(s.b, Listed(s), i, m)
    ensures LandsAt(s, m, i) <= |s.fs| && Filled(UnitsOf(s), s.ix[i], LandsAt(s, m, i))
  {
    hide Uniform, Taken, Found, Lists, Filled, SideInfoFails, FillBytes;
    UniformIsTaken(s, stream);
    ListsPlaces(s, f);
    TakenIsIndexed(s.b, s.fs, s.l12);
    var j := s.ix[i];
    forall k | i <= k < m ensures Listed(s)[k] == s.fs[j + (k - i)] {
      Spread(s.ix, i, k);
      Spread(s.ix, k, m - 1);
    }
    SameFill(s.b, Listed(s), s.fs, i, m, j);
    forall k | j <= k < LandsAt(s, m, i) ensures At(s.b, s.fs[k].offset).Layer() == 3 { KindOfFrame(s, stream, k); }
    BackFillFills(s.b, s.fs, s.l12, j, LandsAt(s, m, i));
  }

  /** The entries count the samples of the frames listed from `g` on. */
  ghost predicate CountsFrom<D(!new)>(s: Setting<D>, index: seq<Entry>, g: nat)
    requires Taken(s.b, s.fs, s.l12) && Placed(s)
  {
    |index| == |s.ix| && forall t: nat :: t < |index| ==> EntryCounts(s, index, g, t)
  }

  ghost predicate EntryCounts<D(!new)>(s: Setting<D>, index: seq<Entry>, g: nat, t: nat)
    requires Taken(s.b, s.fs, s.l12) && Placed(s) && t < |index| == |s.ix|
  {
    index[t].offset == s.fs[s.ix[t]].offset && index[t].sample == ListedTotal(s, g, t)
  }

  /** The leading frames add exactly the samples the index does not count. */
  lemma {:induction false} LeadingCounts<D(!new)>(s: Setting<D>, stream: Info, index: seq<Entry>, g: nat, i: nat,
                                                  skip: nat)
    requires Uniform(s, stream) && Placed(s) && CountsFrom(s, index, g) && g < |s.ix| && i < |s.ix|
    requires skip + ListedTotal(s, i, g) <= INT_MAX
    ensures WithLeading(SourceOf(s), index, stream.channels, i, skip) == skip + ListedTotal(s, i, g)
    decreases |s.ix| - i
  {
    hide Uniform, Taken, SourceOf, Nominal, Found, Source.HeaderSamples, ListedTotal, Count, CountsFrom;
    UniformIsTaken(s, stream);
    CountsAt(s, index, g, i);
    if i + 1 < |s.ix| {
      var j := i + 1;
      CountsAt(s, index, g, j);
      NominalAtHeader(s, stream, s.ix[i]);
      ListedTotalStep(s, g, i);
      ListedTotalStep(s, g, j);
      ListedTotalStep(s, i, g);
      if i < g {
        ListedFromLeft(s, i, g);
        LeadingCounts(s, stream, index, g, j, skip + Count(s, s.ix[i]));
      }
    } else {
      ListedTotalStep(s, i, g);
    }
  }

  lemma CountsAt<D(!new)>(s: Setting<D>, index: seq<Entry>, g: nat, t: nat)
    requires Taken(s.b, s.fs, s.l12) && Placed(s) && CountsFrom(s, index, g) && t < |s.ix|
    ensures |index| == |s.ix| && EntryCounts(s, index, g, t)
  {
    hide Taken, Found, EntryCounts;
  }

  lemma ListedFromLeft<D(!new)>(s: Setting<D>, a: nat, t: nat)
    requires Taken(s.b, s.fs, s.l12) && Placed(s) && a < t <= |s.ix|
    ensures ListedTotal(s, a, t) == Count(s, s.ix[a]) + ListedTotal(s, a + 1, t)
  {
    hide Taken, Found, Nominal;
    ListedIsIndexed(s);
    NominalFromLeft(s.b, Listed(s), a, t);
  }

  /** The skip count of the seek, as one sum over frames. */
  lemma SkipIsWhole<D(!new)>(s: Setting<D>, stream: Info, f: nat, index: seq<Entry>, g: nat, position: nat, t: nat,
                             i: nat)
    requires Uniform(s, stream) && Lists(s, f) && Placed(s) && CountsFrom(s, index, g) && g < |s.ix|
    requires i <= t < |s.ix| && g <= t && ListedTotal(s, g, t) <= position
    requires ListedTotal(s, i, t) + (position - ListedTotal(s, g, t)) <= INT_MAX
    ensures SkipFrom(SourceOf(s), index, stream.channels, i, position)
         == ListedTotal(s, i, t) + (position - ListedTotal(s, g, t))
  {
    hide Uniform, Taken, Found, SourceOf, WithLeading, Nominal, ListedTotal, Samples, CountsFrom;
    UniformIsTaken(s, stream);
    ListsPlaces(s, f);
    CountsAt(s, index, g, i);
    ListedIsSamples(s, stream, f, i, t);
    ListedIsSamples(s, stream, f, g, t);
    ListedIsSamples(s, stream, f, g, i);
    ListedIsSamples(s, stream, f, i, g);
    NoSamples(s);
    if i <= g { SamplesAdd(s, stream, g - i, t - g); } else { SamplesAdd(s, stream, i - g, t - i); }
    LeadingCounts(s, stream, index, g, i, position - index[i].sample);
  }

  lemma TargetIsCounted<D(!new)>(s: Setting<D>, stream: Info, index: seq<Entry>, g: nat, position: nat, t: nat)
    requires Uniform(s, stream) && Placed(s) && CountsFrom(s, index, g) && g < |s.ix| && IsTarget(index, position, t)
    ensures g <= t < |s.ix| == |index| && index[t].sample == ListedTotal(s, g, t) <= position
  {
    hide Uniform, Taken, Found, ListedTotal, CountsFrom;
    UniformIsTaken(s, stream);
    CountsAt(s, index, g, g);
    ListedTotalStep(s, g, g);
    TargetInRange(index, position, t);
    CountsAt(s, index, g, if t < |s.ix| then t else g);
  }

  lemma AgreesWhereItLands<D(!new)>(s: Setting<D>, stream: Info, f: nat, t: nat, i: nat, y: nat)
    requires Uniform(s, stream) && TwoFrameMemory(s.dsp) && Plays(s, f) && Lists(s, f) && Placed(s) && t < |s.ix|
    requires Indexed(s.b, Listed(s)) && RestartsAt(s.b, Listed(s), stream.layer, t, i) && FillsToo(s, t, i)
    ensures i <= t && LandsAt(s, t, i) < |s.fs| &&
      YieldAt(s, s.ix[i], LandsAt(s, t, i), y) == YieldAt(s, 0, LandsAt(s, t, i), y)
  {
    hide Uniform, Taken, Found, Plays, Lists, DecodesFrom, Indexed, YieldAt, DspAt, TwoFrameMemory, RestartsAt,
      Filled, FillsToo;
    UniformIsTaken(s, stream);
    PlaysFrom(s, f);
    ListsPlaces(s, f);
    RestartIsFilled(s, stream, f, t, i);
    Spread(s.ix, i, t);
    var m := t - Min(t, MINIMP3_PREDECODE_FRAMES);
    if t >= 2 {
      DspMeets(s, f, s.ix[i], LandsAt(s, m, i));
    } else {
      assert InPlace(s.ix, 0);
    }
    SameFromTarget(s, f, s.ix[i], LandsAt(s, m, i), LandsAt(s, t, i), y);
  }

  // ---------------------------------------------------------------- the theorem

  /** The samples of the frames that were taken before listed frame `i` and are missing from the index. */
  ghost function Missing<D(!new)>(s: Setting<D>, i: nat): nat
    requires Taken(s.b, s.fs, s.l12) && i < |s.ix| && i <= s.ix[i] <= |s.fs|
  {
    Samples(s, s.ix[i] - i)
  }

  /**
   * In a stream whose frames from `f` on decode when it is read from the start, and with an index that counts from
   * frame `g`: decoding afresh from the frame a seek chooses and dropping the samples it counts yields the continuous
   * stream from `position` on, short of the samples counted before frame `f`, which are never yielded, and late by
   * the samples of the frames before the restart that are missing from the index.
   */
  lemma SeekYields<D(!new)>(s: Setting<D>, stream: Info, f: nat, index: seq<Entry>, g: nat, position: nat, t: nat,
                            i: nat)
    requires Uniform(s, stream) && TwoFrameMemory(s.dsp) && Plays(s, f) && Lists(s, f) && Placed(s)
    requires CountsFrom(s, index, g) && g < |s.ix| && g <= f
    requires Chooses(s, stream, index, position, t, i) && Seekable(s, stream, index, position)
    ensures SourceOf(s).MakesProgress() && i <= t < |index| == |s.ix| && i <= s.ix[i] < |s.fs| && f <= |s.fs|
    ensures Yield(SourceOf(s), stream, SourceOf(s).initial, s.fs[s.ix[i]].offset,
                  SkipFrom(SourceOf(s), index, stream.channels, i, position))
         == DropOf(Continuous(s, stream), position - Min(position, Total(s, g, f)) + Missing(s, i))
  {
    hide *;
    SourceMakesProgress(s);
    UniformIsTaken(s, stream);
    PlaysFrom(s, f);
    CountsAt(s, index, g, g);
    ChosenFits(s, stream, index, position, t, i);
    PlaceOf(s, f, t);
    CountsAt(s, index, g, t);
    AgreesWhereItLands(s, stream, f, t, i, 0);
    PlaceOf(s, f, i);
    TargetIsCounted(s, stream, index, g, position, t);
    SkipIsWhole(s, stream, f, index, g, position, t, i);
    var y := position - ListedTotal(s, g, t);
    var u := LandsAt(s, t, i);
    LandsOn(s, stream, f, t, i);
    FromRestart(s, stream, f, s.ix[i], ListedTotal(s, i, t) + y);
    SkipWholeFrames(s, stream, s.ix[i], s.ix[i], u, y);
    AgreesWhereItLands(s, stream, f, t, i, y);
    LeftOfContinuous(s, stream, f, u, y);
    ShortBy(s, stream, f, g, t, i, position, y);
  }

  lemma PlaceOf<D(!new)>(s: Setting<D>, f: nat, k: nat)
    requires Lists(s, f) && k < |s.ix|
    ensures k <= s.ix[k] < |s.fs| && Found(s.b, s.fs[s.ix[k]]) && |s.fs| > 0 && (k <= f ==> s.ix[k] == k)
  {
    hide Found;
    ListsPlaces(s, f);
    assert k <= f ==> InPlace(s.ix, k);
  }

  /** Dropping the samples of the frames listed from `i` to `t` passes as many frames of those taken. */
  lemma LandsOn<D(!new)>(s: Setting<D>, stream: Info, f: nat, t: nat, i: nat)
    requires Uniform(s, stream) && Lists(s, f) && Placed(s) && i <= t < |s.ix| && LandsAt(s, t, i) <= |s.fs|
    ensures s.ix[i] <= LandsAt(s, t, i) && Total(s, s.ix[i], LandsAt(s, t, i)) == ListedTotal(s, i, t)
  {
    hide Uniform, Taken, Found, Lists, Samples;
    UniformIsTaken(s, stream);
    ListedIsSamples(s, stream, f, i, t);
    TotalIsSamples(s, stream, s.ix[i], LandsAt(s, t, i));
  }

  lemma ChosenFits<D(!new)>(s: Setting<D>, stream: Info, index: seq<Entry>, position: nat, t: nat, i: nat)
    requires Taken(s.b, s.fs, s.l12) && Placed(s) && |index| == |s.ix|
    requires Chooses(s, stream, index, position, t, i) && Seekable(s, stream, index, position)
    ensures t < |s.ix| && IsTarget(index, position, t) && FillsToo(s, t, i)
    ensures Indexed(s.b, Listed(s)) && RestartsAt(s.b, Listed(s), stream.layer, t, i)
    ensures ListedTotal(s, i, t) + (position - index[t].sample) <= INT_MAX
  {
    hide Taken, Found, ListedTotal, FillsToo, RestartsAt, IsTarget;
    ListedIsIndexed(s);
  }

  lemma ShortBy<D(!new)>(s: Setting<D>, stream: Info, f: nat, g: nat, t: nat, i: nat, position: nat, y: nat)
    requires Uniform(s, stream) && Lists(s, f) && Placed(s) && f <= |s.fs| && g <= f && g <= t && i <= t < |s.ix|
    requires LandsAt(s, t, i) <= |s.fs| && i <= s.ix[i] && position == ListedTotal(s, g, t) + y
    ensures var u := LandsAt(s, t, i);
      position - Min(position, Total(s, g, f)) + Missing(s, i)
        == if u <= f then y - Min(y, Total(s, u, f)) else Total(s, f, u) + y
  {
    hide Uniform, Taken, Found, Lists, Samples, Total, ListedTotal;
    UniformIsTaken(s, stream);
    var u := LandsAt(s, t, i);
    PlaceOf(s, f, i);
    PlaceOf(s, f, t);
    ListedIsSamples(s, stream, f, g, t);
    TotalIsSamples(s, stream, g, f);
    NoSamples(s);
    if u <= f {
      TotalIsSamples(s, stream, u, f);
      SamplesAdd(s, stream, f - t, t - g);
    } else {
      TotalIsSamples(s, stream, f, u);
      SamplesAdd(s, stream, t - f, f - g);
      if i > f { SamplesAdd(s, stream, t - f, s.ix[i] - i); }
    }
  }
}
