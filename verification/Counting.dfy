/**
 * What an index counts: it lists the frames that searches find, and counts their samples from some frame on, which
 * depends on the decoder that it is built with.
 */
module Counting {
  import opened Bits
  import opened Header
  import opened Sync
  import opened Reservoir
  import opened Decoder
  import opened Index
  import opened Player
  import opened Seeking
  import opened Wrappers

  // ---------------------------------------------------------------- the frames listed

  /** Each place is that of a frame that a search finds. */
  ghost predicate Placed<D(!new)>(s: Setting<D>) {
    forall k :: 0 <= k < |s.ix| ==> s.ix[k] < |s.fs| && Found(s.b, s.fs[s.ix[k]])
  }

  /** The frames that the index lists. */
  ghost function Listed<D(!new)>(s: Setting<D>): (fs: seq<FrameRef>)
    requires Placed(s)
    ensures |fs| == |s.ix| && forall k :: 0 <= k < |fs| ==> fs[k] == s.fs[s.ix[k]]
  {
    seq(|s.ix|, k requires 0 <= k < |s.ix| => s.fs[s.ix[k]])
  }

  predicate Ascending(ix: seq<nat>) { forall k, l :: 0 <= k < l < |ix| ==> ix[k] < ix[l] }

  /** They are listed in their order, and up to frame `f` none is missing. */
  ghost predicate Lists<D(!new)>(s: Setting<D>, f: nat) {
    Placed(s) && Ascending(s.ix) && forall k: nat :: k <= f && k < |s.fs| ==> InPlace(s.ix, k)
  }

  predicate InPlace(ix: seq<nat>, k: nat) { k < |ix| && ix[k] == k }

  lemma ListedIsIndexed<D(!new)>(s: Setting<D>)
    requires Placed(s) && Taken(s.b, s.fs, s.l12)
    ensures Indexed(s.b, Listed(s))
  {
    hide Found;
  }

  /** Between two frames listed there are at least as many as are listed. */
  lemma {:induction false} Spread(ix: seq<nat>, i: nat, t: nat)
    requires Ascending(ix) && i <= t < |ix|
    ensures t - i <= ix[t] - ix[i]
    decreases t
  {
    if i < t { Spread(ix, i, t - 1); }
  }

  lemma ListsPlaces<D(!new)>(s: Setting<D>, f: nat)
    requires Lists(s, f)
    ensures Placed(s) && Ascending(s.ix) && |s.ix| <= |s.fs| && (|s.fs| > 0 ==> |s.ix| > 0)
    ensures forall k: nat :: k < |s.ix| ==> k <= s.ix[k] < |s.fs| && Found(s.b, s.fs[s.ix[k]])
    ensures forall k: nat :: k <= f && k < |s.ix| ==> InPlace(s.ix, k)
    ensures f < |s.fs| ==> InPlace(s.ix, f)
  {
    hide Found;
    forall k: nat | k < |s.ix| ensures k <= s.ix[k] < |s.fs| { Spread(s.ix, 0, k); }
    assert |s.fs| > 0 ==> InPlace(s.ix, 0);
    if |s.ix| > 0 {
      var last := |s.ix| - 1;
      assert last <= s.ix[last];
    }
  }

  /** The nominal samples of the frames listed at a to t - 1. */
  ghost function ListedTotal<D(!new)>(s: Setting<D>, a: nat, t: nat): nat
    requires Taken(s.b, s.fs, s.l12) && Placed(s) && t <= |s.ix|
  {
    ListedIsIndexed(s);
    NominalFrom(s.b, Listed(s), a, t)
  }

  // ---------------------------------------------------------------- states that decoding a stream leaves

  /** The decoder is fresh or has met frames of this stream: a free format then has the length of its frames. */
  ghost predicate Own<D(!new)>(s: Setting<D>, st: Full<D>) {
    st.dec.Ready? && |s.fs| > 0 ==> st.dec.freeFormat == s.fs[0].freeFormat
  }

  ghost function OwnStates<D(!new)>(s: Setting<D>): Full<D> -> bool {
    st => Own(s, st)
  }

  /** In any such state the decoder takes a frame that a search finds. */
  lemma OwnLocates<D(!new)>(s: Setting<D>, stream: Info, st: Full<D>, k: nat)
    requires Uniform(s, stream) && k < |s.fs| && Own(s, st) && Found(s.b, s.fs[k])
    ensures Stands(s.b, s.fs[k]) && Located(st.dec, s.b, s.fs[k].offset) == Some(s.fs[k])
  {
    hide Taken, Uniform, Find, FrameSize, Header.Compare, Header.Valid;
    UniformIsTaken(s, stream);
    KindOfFrame(s, stream, k);
    FoundStands(s.b, s.fs[k]);
  }

  /** The reservoir a frame at `off` is decoded with. */
  ghost function HeldAt(st: State, b: seq<Byte>, off: nat): seq<Byte>
    requires off <= |b|
  {
    if Continuation(st, b, off).Some? then st.reservoir else []
  }

  lemma OwnOutcome<D(!new)>(s: Setting<D>, stream: Info, st: Full<D>, k: nat)
    requires Uniform(s, stream) && k < |s.fs| && Own(s, st) && Found(s.b, s.fs[k])
    ensures s.fs[k].offset <= |s.b| && s.fs[k].End() <= |s.b| && s.fs[k].offset + HDR_SIZE <= |s.b|
    ensures var (f, r) := (s.fs[k], HeldAt(st.dec, s.b, s.fs[k].offset));
      Decode(st.dec, s.b, f.offset, s.l12) ==
        if UnitAt(s.b, f, s.l12).Corrupt? then Outcome(Fresh, false)
        else if At(s.b, f.offset).Layer() != 3 then Outcome(Ready(At(s.b, f.offset), f.freeFormat, r), true)
        else
          var u := UnitAt(s.b, f, s.l12).frame;
          Outcome(Ready(At(s.b, f.offset), f.freeFormat, After(r, u)), Decodes(r, u))
  {
    hide Uniform, Taken, Found, Located, Continuation, UnitOf, After, FrameSize, Follows;
    OwnLocates(s, stream, st, k);
  }

  /** A frame gives its nominal number of samples or none, and leaves such a state again. */
  lemma OwnDecode<D(!new)>(s: Setting<D>, stream: Info, st: Full<D>, k: nat)
    requires Uniform(s, stream) && k < |s.fs| && Own(s, st) && Found(s.b, s.fs[k])
    ensures var d := FullDecode(s, st, s.fs[k].offset);
      s.fs[k].offset <= |s.b| &&
      d.info == Some(stream) && d.bytes == s.fs[k].size && Own(s, d.state) &&
      d.state.dec == Decode(st.dec, s.b, s.fs[k].offset, s.l12).state &&
      |d.pcm| == if Decode(st.dec, s.b, s.fs[k].offset, s.l12).decoded then Count(s, k) else 0
  {
    hide Taken, Found, Located, Continuation, UnitOf, After, MainOf, Nominal, FrameSize, Follows;
    UniformIsTaken(s, stream);
    KindOfFrame(s, stream, k);
    OwnLocates(s, stream, st, k);
    OwnOutcome(s, stream, st, k);
  }

  // ---------------------------------------------------------------- where an index starts to count

  /** From the states `own` a frame gives its nominal number of samples or none, and leaves such a state. */
  ghost predicate GivesNominal<S(!new)>(src: Source<S>, fs: seq<FrameRef>, own: S -> bool)
    requires Indexed(src.b, fs)
  {
    forall st, k {:trigger src.decode(st, fs[k].offset)} :: own(st) && 0 <= k < |fs| ==>
      var d := src.decode(st, fs[k].offset);
      |d.pcm| in {0, Nominal(src.b, fs[k])} && own(d.state)
  }

  lemma OwnGivesNominal<D(!new)>(s: Setting<D>, stream: Info)
    requires Uniform(s, stream) && Placed(s)
    ensures SourceOf(s).b == s.b && Indexed(s.b, Listed(s)) && GivesNominal(SourceOf(s), Listed(s), OwnStates(s))
  {
    hide Taken, FullDecode, Nominal, Own, Uniform, SourceOf;
    UniformIsTaken(s, stream);
    ListedIsIndexed(s);
    SourceDecodes(s, SourceOf(s).initial, 0);
    forall st, k | Own(s, st) && 0 <= k < |s.ix|
      ensures var d := SourceOf(s).decode(st, Listed(s)[k].offset);
        |d.pcm| in {0, Nominal(s.b, Listed(s)[k])} && Own(s, d.state)
    {
      SourceDecodes(s, st, Listed(s)[k].offset);
      OwnDecode(s, stream, st, s.ix[k]);
    }
  }

  /** The first frame counted: one that gives samples, the 256th, or the last. */
  ghost function FirstCounted<S(!new)>(src: Source<S>, fs: seq<FrameRef>, st: S, k: nat): (g: nat)
    requires k < |fs|
    ensures k <= g < |fs|
    decreases |fs| - k
  {
    if k + 1 == |fs| || k + 1 >= MAX_PROBED || src.decode(st, fs[k].offset).pcm != [] then k
    else FirstCounted(src, fs, src.decode(st, fs[k].offset).state, k + 1)
  }

  /** Once a frame has given samples, or enough have been probed, every frame is counted. */
  lemma {:induction false} CountsAll<S(!new)>(src: Source<S>, fs: seq<FrameRef>, p: Progress<S>, k: nat, t: nat)
    requires Indexed(src.b, fs) && k <= t < |fs| && (p.started || k + 1 >= MAX_PROBED)
    ensures IndexFrom(src, fs, p, k)[t - k].sample == p.samples + NominalFrom(src.b, fs, k, t)
    decreases t - k
  {
    hide Nominal, Indexed;
    if k < t {
      CountsAll(src, fs, Probe(src, fs, p, k), k + 1, t);
      NominalFromLeft(src.b, fs, k, t);
    }
  }

  lemma {:induction false} CountsFromFirst<S(!new)>(src: Source<S>, fs: seq<FrameRef>, own: S -> bool, st: S, k: nat,
                                                    t: nat)
    requires Indexed(src.b, fs) && GivesNominal(src, fs, own) && own(st) && k <= t < |fs|
    ensures IndexFrom(src, fs, Progress(st, 0, false), k)[t - k].sample
         == NominalFrom(src.b, fs, FirstCounted(src, fs, st, k), t)
    decreases t - k
  {
    hide Nominal, Indexed, NominalFrom;
    NothingUpTo(src.b, fs, FirstCounted(src, fs, st, k), k);
    if k < t {
      var q := Probe(src, fs, Progress(st, 0, false), k);
      if q.started || k + 1 >= MAX_PROBED {
        CountsAll(src, fs, q, k + 1, t);
        NominalFromLeft(src.b, fs, k, t);
      } else {
        CountsFromFirst(src, fs, own, q.state, k + 1, t);
      }
    }
  }

  lemma NothingUpTo(b: seq<Byte>, fs: seq<FrameRef>, g: nat, k: nat)
    requires Indexed(b, fs) && k <= g < |fs|
    ensures NominalFrom(b, fs, g, k) == 0
  {}

  /** Two indexes are equal if and only if both start counting at the same frame. */
  lemma {:induction false} SameIndexIff<S(!new)>(src: Source<S>, fs: seq<FrameRef>, own: S -> bool, st: S, tt: S)
    requires Indexed(src.b, fs) && GivesNominal(src, fs, own) && own(st) && own(tt) && |fs| > 0
    ensures IndexWith(src, fs, st) == IndexWith(src, fs, tt)
       <==> FirstCounted(src, fs, st, 0) == FirstCounted(src, fs, tt, 0)
  {
    hide Nominal, Indexed, IndexFrom, NominalFrom, FirstCounted, GivesNominal;
    var (a, b) := (IndexWith(src, fs, st), IndexWith(src, fs, tt));
    var (g, h) := (FirstCounted(src, fs, st, 0), FirstCounted(src, fs, tt, 0));
    forall t | 0 <= t < |fs|
      ensures a[t].sample == NominalFrom(src.b, fs, g, t) && b[t].sample == NominalFrom(src.b, fs, h, t)
    {
      CountsFromFirst(src, fs, own, st, 0, t);
      CountsFromFirst(src, fs, own, tt, 0, t);
    }
    if g == h {
      forall t | 0 <= t < |fs| ensures a[t] == b[t] {}
      assert a == b;
    } else {
      var first := if g < h then g else h;
      OneCounted(src.b, fs, g, h, first + 1);
      assert a[first + 1].sample != b[first + 1].sample;
    }
  }

  lemma OneCounted(b: seq<Byte>, fs: seq<FrameRef>, g: nat, h: nat, t: nat)
    requires Indexed(b, fs) && g != h && t == (if g < h then g else h) + 1 && t < |fs|
    ensures NominalFrom(b, fs, g, t) != NominalFrom(b, fs, h, t)
  {
    hide Nominal, Indexed;
    assert NominalFrom(b, fs, g, t - 1) == NominalFrom(b, fs, h, t - 1) == 0;
  }

  // ---------------------------------------------------------------- the index of a stream

  /** The place in the index from which it counts when it is built with a decoder in state `st`. */
  ghost function Counted<D(!new)>(s: Setting<D>, st: Full<D>): (g: nat)
    requires Placed(s) && |s.ix| > 0
    ensures g < |s.ix|
  {
    FirstCounted(SourceOf(s), Listed(s), st, 0)
  }

  ghost function IndexBy<D(!new)>(s: Setting<D>, st: Full<D>): (index: seq<Entry>)
    requires Taken(s.b, s.fs, s.l12) && Placed(s)
    ensures |index| == |s.ix| && forall j :: 0 <= j < |index| ==> index[j].offset == s.fs[s.ix[j]].offset
  {
    ListedIsIndexed(s);
    IndexWith(SourceOf(s), Listed(s), st)
  }

  lemma IndexCounts<D(!new)>(s: Setting<D>, stream: Info, st: Full<D>, t: nat)
    requires Uniform(s, stream) && Placed(s) && Own(s, st) && t < |s.ix|
    ensures IndexBy(s, st)[t].sample == ListedTotal(s, Counted(s, st), t)
  {
    hide Taken, Uniform, SourceOf, Indexed, GivesNominal, Own, IndexFrom, NominalFrom, FirstCounted, Found;
    UniformIsTaken(s, stream);
    OwnGivesNominal(s, stream);
    CountsFromFirst(SourceOf(s), Listed(s), OwnStates(s), st, 0, t);
  }

  lemma StartIsFresh<D(!new)>(s: Setting<D>)
    ensures Own(s, SourceOf(s).initial) && SourceOf(s).initial == Full(Fresh, s.dsp.zero)
    ensures Taken(s.b, s.fs, s.l12) ==> forall i :: 0 <= i <= |s.fs| ==> FullAt(s, i, i) == SourceOf(s).initial
  {
    hide Taken;
  }

  /** Up to frame `f` the decoder is called at each frame. */
  lemma CalledInPlace<D(!new)>(s: Setting<D>, f: nat, k: nat)
    requires Taken(s.b, s.fs, s.l12) && Plays(s, f) && k <= f && k < |s.fs|
    ensures CalledAt(s.fs, 0, k) == s.fs[k].offset && (DecodesAt(UnitsOf(s), 0, k) <==> f <= k)
  {
    hide Taken, UnitsOf, DecodesAt;
    assert k > 0 ==> Touches(s.fs, k);
  }

  /** A fresh decoder makes the index count from the first frame that decodes, but no later than from the 256th. */
  lemma {:induction false} FreshCounts<D(!new)>(s: Setting<D>, stream: Info, f: nat, k: nat)
    requires Uniform(s, stream) && Plays(s, f) && Lists(s, f)
    requires k < |s.ix| && k <= Min(f, MAX_PROBED - 1)
    ensures FirstCounted(SourceOf(s), Listed(s), FullAt(s, 0, k), k) == Min(Min(f, MAX_PROBED - 1), |s.ix| - 1)
    decreases |s.ix| - k
  {
    hide Taken, Uniform, Plays, Lists, SourceOf, FullDecode, DecodesAt, FullAt, PcmAt, Count, Found, CalledAt;
    UniformIsTaken(s, stream);
    ListsPlaces(s, f);
    assert InPlace(s.ix, k);
    SourceDecodes(s, FullAt(s, 0, k), s.fs[k].offset);
    CalledInPlace(s, f, k);
    FirstIsFound(s.b, s.fs, s.l12);
    OneFullDecode(s, 0, k);
    PcmLength(s, stream, 0, k);
    if k < f && k + 1 < |s.ix| && k + 1 < MAX_PROBED {
      FreshCounts(s, stream, f, k + 1);
    }
  }

  lemma FreshCounted<D(!new)>(s: Setting<D>, stream: Info, f: nat)
    requires Uniform(s, stream) && Plays(s, f) && Lists(s, f) && |s.fs| > 0
    ensures Placed(s) && |s.ix| > 0 && Counted(s, SourceOf(s).initial) == Min(Min(f, MAX_PROBED - 1), |s.ix| - 1)
  {
    hide Taken, Uniform, SourceOf, FullAt, FirstCounted, Plays, Lists;
    UniformIsTaken(s, stream);
    ListsPlaces(s, f);
    StartIsFresh(s);
    FreshCounts(s, stream, f, 0);
  }

  // ---------------------------------------------------------------- a reservoir left over

  /** More bytes in the reservoir never leave fewer behind, as long as neither frame decodes. */
  lemma LongerStaysLonger(r: seq<Byte>, q: seq<Byte>, f: L3Frame)
    requires f.Valid() && |r| <= |q| < f.begin
    ensures |After(r, f)| <= |After(q, f)|
  {}

  /** State `st` before frame `k` is ready for it with at least the reservoir of the run from the start. */
  ghost predicate Richer<D(!new)>(s: Setting<D>, st: Full<D>, k: nat)
    requires Taken(s.b, s.fs, s.l12) && k <= |s.fs|
  {
    Own(s, st) &&
    (k > 0 ==> (st.dec.Ready? ==> st.dec.header == At(s.b, s.fs[k - 1].offset)) &&
               |Run(UnitsOf(s), 0, k)| <= if st.dec.Ready? then |st.dec.reservoir| else 0)
  }

  lemma RicherHolds<D(!new)>(s: Setting<D>, stream: Info, f: nat, st: Full<D>, k: nat)
    requires Uniform(s, stream) && Plays(s, f) && k <= f && k < |s.fs| && Richer(s, st, k)
    ensures s.fs[k].offset <= |s.b| && |Run(UnitsOf(s), 0, k)| <= |HeldAt(st.dec, s.b, s.fs[k].offset)|
  {
    hide Uniform, Taken, Continuation, Plays, UnitAt, After, FrameSize, Follows, HeaderAt;
    UniformIsTaken(s, stream);
    TakenFrame(s.b, s.fs, s.l12, k);
    CalledInPlace(s, f, k);
    if k > 0 {
      KindOfFrame(s, stream, k - 1);
      UnitsAre(s.b, s.fs, s.l12, k - 1);
      RunStep(UnitsOf(s), 0, k);
      if UnitsOf(s)[k - 1].Usable? && st.dec.Ready? {
        LocatedAlike(st.dec, Behind(s.b, s.fs[k - 1], s.l12), s.b, s.fs[k - 1].End());
      }
    }
  }

  /** With more in the reservoir no fewer frames decode, and if none does there is still more in it afterwards. */
  lemma StaysRicher<D(!new)>(s: Setting<D>, stream: Info, f: nat, st: Full<D>, k: nat)
    requires Uniform(s, stream) && Plays(s, f) && k <= f && k < |s.fs| && Richer(s, st, k) && Found(s.b, s.fs[k])
    ensures s.fs[k].offset <= |s.b|
    ensures var o := Decode(st.dec, s.b, s.fs[k].offset, s.l12);
      (DecodesAt(UnitsOf(s), 0, k) ==> o.decoded) &&
      (!o.decoded ==> forall d :: Richer(s, Full(o.state, d), k + 1))
  {
    hide Uniform, Taken, Plays, Found, Continuation, UnitOf, Located, Decode, HeldAt, After, Decoder.Units;
    UniformIsTaken(s, stream);
    var us := UnitsOf(s);
    KindOfFrame(s, stream, k);
    RicherHolds(s, stream, f, st, k);
    OwnOutcome(s, stream, st, k);
    UnitsAre(s.b, s.fs, s.l12, k);
    RunBehind(us, 0, k);
    var r := HeldAt(st.dec, s.b, s.fs[k].offset);
    if !us[k].Corrupt? && !Decodes(r, us[k].frame) {
      LongerStaysLonger(Run(us, 0, k), r, us[k].frame);
    }
  }

  lemma RunBehind(us: seq<Unit>, i: nat, k: nat)
    requires ValidUnits(us) && i <= k < |us|
    ensures us[k].Corrupt? ==> Run(us, i, k + 1) == []
    ensures !us[k].Corrupt? ==> |Run(us, i, k + 1)| <= |After(Run(us, i, k), us[k].frame)|
  {
    hide After;
  }

  /** Whatever a decoder has left over, it makes the index count no later than from the first frame that decodes. */
  lemma {:induction false} CountedBy<D(!new)>(s: Setting<D>, stream: Info, f: nat, st: Full<D>, k: nat)
    requires Uniform(s, stream) && Plays(s, f) && Lists(s, f) && k <= f < |s.fs| && k < |s.ix| && Richer(s, st, k)
    ensures FirstCounted(SourceOf(s), Listed(s), st, k) <= f
    decreases f - k
  {
    hide Taken, Uniform, Plays, Lists, SourceOf, FullDecode, DecodesAt, Richer, Decode, Count, Found;
    UniformIsTaken(s, stream);
    ListsPlaces(s, f);
    assert InPlace(s.ix, k);
    SourceDecodes(s, st, s.fs[k].offset);
    RicherIsOwn(s, st, k);
    OwnDecode(s, stream, st, k);
    StaysRicher(s, stream, f, st, k);
    CalledInPlace(s, f, k);
    if k < f && k + 1 < MAX_PROBED && !Decode(st.dec, s.b, s.fs[k].offset, s.l12).decoded {
      var next := FullDecode(s, st, s.fs[k].offset).state;
      assert next == Full(next.dec, next.dsp);
      CountedBy(s, stream, f, next, k + 1);
    }
  }

  lemma RicherIsOwn<D(!new)>(s: Setting<D>, st: Full<D>, k: nat)
    requires Taken(s.b, s.fs, s.l12) && k <= |s.fs|
    ensures Richer(s, st, k) ==> Own(s, st)
    ensures k == 0 && Own(s, st) ==> Richer(s, st, k)
  {}

  lemma CountedInTime<D(!new)>(s: Setting<D>, stream: Info, f: nat, st: Full<D>)
    requires Uniform(s, stream) && Plays(s, f) && Lists(s, f) && |s.fs| > 0 && Own(s, st)
    ensures Placed(s) && |s.ix| > 0 && Counted(s, st) <= f && Counted(s, st) < MAX_PROBED
  {
    hide Uniform, Taken, Plays, SourceOf, Own, Richer, Lists, FirstCounted;
    UniformIsTaken(s, stream);
    ListsPlaces(s, f);
    UpTo(s, f);
    RicherIsOwn(s, st, 0);
    ProbesEnd(SourceOf(s), Listed(s), st, 0);
    if f < |s.fs| {
      CountedBy(s, stream, f, st, 0);
    }
  }

  lemma UpTo<D(!new)>(s: Setting<D>, f: nat)
    requires Taken(s.b, s.fs, s.l12) && Plays(s, f)
    ensures f <= |s.fs|
  {}

  lemma {:induction false} ProbesEnd<S(!new)>(src: Source<S>, fs: seq<FrameRef>, st: S, k: nat)
    requires k < |fs| && k < MAX_PROBED
    ensures FirstCounted(src, fs, st, k) < MAX_PROBED
    decreases |fs| - k
  {
    if k + 1 < |fs| && k + 1 < MAX_PROBED {
      ProbesEnd(src, fs, src.decode(st, fs[k].offset).state, k + 1);
    }
  }
}
