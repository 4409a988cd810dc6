/** The bit reservoir that Layer III carries from frame to frame, over whole runs and across a restart. */
module Reservoir {
  import opened Bits
  import opened Header
  import opened SideInfo

  const MAX_BITRESERVOIR_BYTES: nat := 511
  const MAX_L3_FRAME_PAYLOAD_BYTES: nat := 2304

  // ---------------------------------------------------------------- one frame

  /**
   * What the reservoir logic sees of a Layer III frame: the back reference, the main data bits its granules use, its
   * main data.
   */
  datatype L3Frame = L3Frame(begin: nat, used: nat, data: seq<Byte>) {
    /** The back reference has nine bits and the side info parser checked the lengths. */
    predicate Valid() { begin <= MAX_BITRESERVOIR_BYTES && used <= 8 * (begin + |data|) }
  }

  /**
   * A frame as a run meets it: one whose side info is illegal or cut short, a usable one, or a usable one behind which
   * the decoder is reset because the stream does not go on there.
   */
  datatype Unit = Corrupt | Usable(frame: L3Frame) | Final(frame: L3Frame)

  function KeepLast<T>(s: seq<T>, n: nat): (r: seq<T>)
    ensures |r| == if |s| <= n then |s| else n
  {
    if |s| <= n then s else s[|s| - n..]
  }

  predicate Decodes(r: seq<Byte>, f: L3Frame) { |r| >= f.begin }

  /** The main data the granules are decoded from: the announced bytes of the reservoir, then the frame's own. */
  function MainData(r: seq<Byte>, f: L3Frame): seq<Byte> { KeepLast(r, f.begin) + f.data }

  /** The reservoir after a frame; a frame that cannot be decoded consumes nothing. */
  function After(r: seq<Byte>, f: L3Frame): (r': seq<Byte>)
    requires f.Valid()
    ensures |r'| <= MAX_BITRESERVOIR_BYTES
  {
    var main := MainData(r, f);
    KeepLast(if Decodes(r, f) then main[(f.used + 7) / 8..] else main, MAX_BITRESERVOIR_BYTES)
  }

  /** `s` with `data` written over it from `d` on. */
  function Overwritten(s: seq<Byte>, d: nat, data: seq<Byte>): (r: seq<Byte>)
    requires d + |data| <= |s|
    ensures |r| == |s|
  {
    s[..d] + data + s[d + |data|..]
  }

  /** memcpy */
  method CopyBytes(dst: array<Byte>, d: nat, src: seq<Byte>)
    requires d + |src| <= dst.Length
    modifies dst
    ensures dst[..] == Overwritten(old(dst[..]), d, src)
  {
    forall k | 0 <= k < |src| {
      dst[d + k] := src[k];
    }
  }

  lemma TwoCopies(s: seq<Byte>, a: seq<Byte>, b: seq<Byte>)
    requires |a| + |b| <= |s|
    ensures Overwritten(Overwritten(s, 0, a), |a|, b)[..|a| + |b|] == a + b
  {
    assert Overwritten(s, 0, a)[..|a|] == a;
  }

  /** The fields of mp3dec_t and mp3dec_scratch_t that the reservoir uses. */
  class Store {
    var reserv: int
    const reservBuf: array<Byte>
    const maindata: array<Byte>
    var pos: nat
    var limit: nat

    ghost predicate Valid()
      reads this
    {
      reservBuf != maindata && reservBuf.Length == MAX_BITRESERVOIR_BYTES &&
      maindata.Length == MAX_BITRESERVOIR_BYTES + MAX_L3_FRAME_PAYLOAD_BYTES &&
      0 <= reserv <= MAX_BITRESERVOIR_BYTES && limit % 8 == 0 && limit / 8 <= maindata.Length
    }

    ghost function Contents(): seq<Byte>
      requires Valid()
      reads this, reservBuf
    {
      reservBuf[..reserv]
    }

    constructor ()
      ensures Valid() && fresh(reservBuf) && fresh(maindata) && Contents() == []
    {
      reserv, pos, limit := 0, 0, 0;
      reservBuf := new Byte[MAX_BITRESERVOIR_BYTES];
      maindata := new Byte[MAX_BITRESERVOIR_BYTES + MAX_L3_FRAME_PAYLOAD_BYTES];
    }

    /** The reservoir part of clearing an mp3dec_t. */
    method Clear()
      requires Valid()
      modifies this
      ensures Valid() && Contents() == []
    {
      reserv := 0;
    }

    /** L3_restore_reservoir. */
    method Restore(bs: BitReader, begin: nat, ghost f: L3Frame) returns (success: bool)
      requires Valid() && bs.Valid() && bs.pos % 8 == 0 && bs.limit % 8 == 0 && bs.pos <= bs.limit
      requires f.begin == begin && f.data == bs.buf[bs.pos / 8..bs.limit / 8]
      requires |f.data| <= MAX_L3_FRAME_PAYLOAD_BYTES
      modifies this, maindata
      ensures Valid() && reserv == old(reserv) && pos == 0
      ensures limit == 8 * |MainData(Contents(), f)| && maindata[..limit / 8] == MainData(Contents(), f)
      ensures success <==> Decodes(Contents(), f)
    {
      hide Overwritten;
      var frameBytes := (bs.limit - bs.pos) / 8;
      var bytesHave := if reserv > begin then begin else reserv;
      var skip := if 0 < reserv - begin then reserv - begin else 0;
      var held, data := reservBuf[skip..skip + bytesHave], bs.buf[bs.pos / 8..bs.pos / 8 + frameBytes];
      assert KeepLast(Contents(), begin) == held && data == f.data;
      TwoCopies(maindata[..], held, data);
      CopyBytes(maindata, 0, held);
      CopyBytes(maindata, bytesHave, data);
      pos, limit := 0, 8 * (bytesHave + frameBytes);
      assert maindata[..limit / 8] == maindata[..][..|held| + |data|];
      success := reserv >= begin;
    }

    /** L3_save_reservoir; what is left of the main data is never negative because the side info was checked. */
    method Save(ghost main: seq<Byte>)
      requires Valid() && limit == 8 * |main| && maindata[..limit / 8] == main
      requires pos <= limit
      modifies this, reservBuf
      ensures pos == old(pos) && limit == old(limit)
      ensures Valid() && Contents() == KeepLast(main[(pos + 7) / 8..], 511)
    {
      var at := (pos + 7) / 8;
      var remains := limit / 8 - at;
      if remains > MAX_BITRESERVOIR_BYTES {
        at := at + (remains - MAX_BITRESERVOIR_BYTES);
        remains := MAX_BITRESERVOIR_BYTES;
      }
      if remains > 0 {
        CopyBytes(reservBuf, 0, maindata[at..at + remains]);
      }
      reserv := remains;
    }

    /**
     * The reservoir part of decoding one Layer III frame: restore, let the granules use their bits, save.
     * The Huffman decoder of each granule ends exactly `part_23_length` bits after it began.
     */
    method Frame(bs: BitReader, begin: nat, used: nat, ghost f: L3Frame) returns (success: bool)
      requires Valid() && bs.Valid() && bs.pos % 8 == 0 && bs.limit % 8 == 0 && bs.pos <= bs.limit
      requires f == L3Frame(begin, used, bs.buf[bs.pos / 8..bs.limit / 8]) && f.Valid()
      requires |f.data| <= MAX_L3_FRAME_PAYLOAD_BYTES
      modifies this, reservBuf, maindata
      ensures Valid() && Contents() == After(old(Contents()), f)
      ensures success <==> Decodes(old(Contents()), f)
      ensures success ==> maindata[..limit / 8] == MainData(old(Contents()), f)
    {
      success := Restore(bs, begin, f);
      if success {
        pos := used;
      }
      Save(MainData(Contents(), f));
    }
  }

  // ---------------------------------------------------------------- runs

  predicate ValidUnits(us: seq<Unit>) {
    forall k :: 0 <= k < |us| && !us[k].Corrupt? ==> us[k].frame.Valid()
  }

  /** The reservoir that frame `k` is decoded with when decoding starts at frame `i`; after a reset it is empty. */
  function Run(us: seq<Unit>, i: nat, k: nat): (r: seq<Byte>)
    requires i <= k <= |us| && ValidUnits(us)
    ensures |r| <= MAX_BITRESERVOIR_BYTES
    decreases k
  {
    if k == i then [] else
    match us[k - 1]
    case Corrupt => []
    case Final(_) => []
    case Usable(f) => After(Run(us, i, k - 1), f)
  }

  predicate DecodesAt(us: seq<Unit>, i: nat, k: nat)
    requires i <= k < |us| && ValidUnits(us)
  {
    !us[k].Corrupt? && Decodes(Run(us, i, k), us[k].frame)
  }

  /** No reset between the frames i and k. */
  predicate Unbroken(us: seq<Unit>, i: nat, k: nat)
    requires i <= k <= |us|
  {
    forall j :: i <= j < k ==> us[j].Usable?
  }

  /** The concatenated main data of frames i to k - 1. */
  function Stream(us: seq<Unit>, i: nat, k: nat): seq<Byte>
    requires i <= k <= |us| && Unbroken(us, i, k)
    decreases k
  {
    if k == i then [] else Stream(us, i, k - 1) + us[k - 1].frame.data
  }

  ghost predicate IsSuffix<T>(s: seq<T>, t: seq<T>) {
    |s| <= |t| && t[|t| - |s|..] == s
  }

  lemma SuffixLast<T>(s: seq<T>, t: seq<T>, n: nat)
    requires IsSuffix(s, t) && n <= |s|
    ensures KeepLast(s, n) == KeepLast(t, n)
  {}

  lemma SuffixGrows<T>(s: seq<T>, t: seq<T>, data: seq<T>)
    requires IsSuffix(s, t)
    ensures IsSuffix(s + data, t + data)
  {}

  lemma SuffixTrans<T>(s: seq<T>, t: seq<T>, u: seq<T>)
    requires IsSuffix(s, t) && IsSuffix(t, u)
    ensures IsSuffix(s, u)
  {}

  /** A frame leaves a suffix of what the stream has brought so far. */
  lemma AfterIsSuffix(r: seq<Byte>, t: seq<Byte>, f: L3Frame)
    requires f.Valid() && IsSuffix(r, t)
    ensures IsSuffix(After(r, f), t + f.data) && IsSuffix(MainData(r, f), t + f.data)
  {
    assert IsSuffix(KeepLast(r, f.begin), r);
    assert IsSuffix(After(r, f), MainData(r, f));
    assert MainData(r, f) == KeepLast(r, f.begin) + f.data;
    hide *;
    SuffixTrans(KeepLast(r, f.begin), r, t);
    SuffixGrows(KeepLast(r, f.begin), t, f.data);
    SuffixTrans(After(r, f), MainData(r, f), t + f.data);
  }

  lemma AfterIsSuffixOfTwo(r: seq<Byte>, s: seq<Byte>, t: seq<Byte>, f: L3Frame)
    requires f.Valid() && IsSuffix(r, s + t)
    ensures IsSuffix(After(r, f), s + (t + f.data))
  {
    hide *;
    AfterIsSuffix(r, s + t, f);
    assert s + t + f.data == s + (t + f.data);
  }

  lemma OneFrame(us: seq<Unit>, i: nat, b: nat, k: nat)
    requires i <= b <= k < |us| && ValidUnits(us) && Unbroken(us, b, k + 1)
    ensures us[k].Usable? && us[k].frame.Valid() && Unbroken(us, b, k)
    ensures Run(us, i, k + 1) == After(Run(us, i, k), us[k].frame)
    ensures Stream(us, b, k + 1) == Stream(us, b, k) + us[k].frame.data
  {}

  /** The reservoir is a suffix of what was there at frame `b` followed by the main data since. */
  lemma {:induction false} RunIsSuffix(us: seq<Unit>, i: nat, b: nat, k: nat)
    requires i <= b <= k <= |us| && ValidUnits(us) && Unbroken(us, b, k)
    ensures IsSuffix(Run(us, i, k), Run(us, i, b) + Stream(us, b, k))
    decreases k
  {
    if k == b {
      assert Run(us, i, b) + Stream(us, b, k) == Run(us, i, b);
    } else {
      OneFrame(us, i, b, k - 1);
      hide *;
      RunIsSuffix(us, i, b, k - 1);
      AfterIsSuffixOfTwo(Run(us, i, k - 1), Run(us, i, b), Stream(us, b, k - 1), us[k - 1].frame);
    }
  }

  /** From the restart itself: the reservoir is a suffix of the main data since. */
  lemma RunIsSuffixOfStream(us: seq<Unit>, i: nat, k: nat)
    requires i <= k <= |us| && ValidUnits(us) && Unbroken(us, i, k)
    ensures IsSuffix(Run(us, i, k), Stream(us, i, k))
  {
    RunIsSuffix(us, i, i, k);
    assert Run(us, i, i) == [];
    hide *;
    assert [] + Stream(us, i, k) == Stream(us, i, k);
  }

  /**
   * The run invariant: since the last start at `i` the reservoir holds the end of the main data, at most 511 bytes,
   * and a frame that decodes gets the stream from exactly `begin` bytes before its own data to its end.
   */
  lemma ReservoirInvariant(us: seq<Unit>, i: nat, k: nat)
    requires i <= k < |us| && ValidUnits(us) && Unbroken(us, i, k) && !us[k].Corrupt?
    ensures IsSuffix(Run(us, i, k), Stream(us, i, k)) && |Run(us, i, k)| <= 511
    ensures var f := us[k].frame;
      DecodesAt(us, i, k) ==>
        MainData(Run(us, i, k), f) == KeepLast(Stream(us, i, k) + f.data, f.begin + |f.data|) &&
        f.begin <= |Stream(us, i, k)|
  {
    RunIsSuffixOfStream(us, i, k);
    if DecodesAt(us, i, k) {
      var f := us[k].frame;
      assert f.begin <= |Run(us, i, k)|;
      assert MainData(Run(us, i, k), f) == KeepLast(Run(us, i, k), f.begin) + f.data;
      assert |Run(us, i, k)| <= |Stream(us, i, k)|;
      hide *;
      SuffixLast(Run(us, i, k), Stream(us, i, k), f.begin);
      LastOfAppended(Stream(us, i, k), f.data, f.begin);
    }
  }

  lemma LastOfAppended<T>(s: seq<T>, t: seq<T>, n: nat)
    ensures KeepLast(s + t, n + |t|) == KeepLast(s, n) + t
  {}

  /** A frame behind which the decoder is reset is a fresh start for every run that passes it. */
  lemma ResetRestarts(us: seq<Unit>, i: nat, c: nat, k: nat)
    requires i <= c < k <= |us| && ValidUnits(us) && !us[c].Usable?
    ensures Run(us, i, k) == Run(us, c + 1, k)
  {
    StaysEqual(us, i, c + 1, c + 1, k);
  }

  // ---------------------------------------------------------------- restarting in the middle

  /** In the run from the start exactly the frames from `f` on decode. */
  predicate DecodesFrom(us: seq<Unit>, f: nat)
    requires f <= |us| && ValidUnits(us)
  {
    forall k :: 0 <= k < |us| ==> (DecodesAt(us, 0, k) <==> f <= k)
  }

  /** The two runs have not met: no frame since the restart has decoded, and the restarted run has kept all it saw. */
  predicate Unmet(us: seq<Unit>, b: nat, k: nat)
    requires b <= k <= |us| && ValidUnits(us)
  {
    Unbroken(us, b, k) && (forall j :: b <= j < k ==> !DecodesAt(us, b, j)) &&
    Run(us, b, k) == KeepLast(Stream(us, b, k), MAX_BITRESERVOIR_BYTES)
  }

  /** Frames that decode in neither run are only collected. */
  lemma {:induction false} Collecting(us: seq<Unit>, i: nat, b: nat, k: nat)
    requires i <= b <= k <= |us| && ValidUnits(us) && Unbroken(us, b, k)
    requires forall j :: b <= j < k ==> !DecodesAt(us, i, j)
    ensures Run(us, i, k) == KeepLast(Run(us, i, b) + Stream(us, b, k), MAX_BITRESERVOIR_BYTES)
    decreases k
  {
    var start := Run(us, i, b);
    if k == b {
      assert start + Stream(us, b, k) == start;
    } else {
      Collecting(us, i, b, k - 1);
      var t, f := start + Stream(us, b, k - 1), us[k - 1].frame;
      assert !DecodesAt(us, i, k - 1);
      assert MainData(Run(us, i, k - 1), f) == Run(us, i, k - 1) + f.data;
      assert start + Stream(us, b, k) == t + f.data;
      KeepLastTwice(t, f.data, MAX_BITRESERVOIR_BYTES);
    }
  }

  lemma KeepLastTwice<T>(s: seq<T>, t: seq<T>, n: nat)
    ensures KeepLast(KeepLast(s, n) + t, n) == KeepLast(s + t, n)
  {}

  /**
   * Either the runs agree on the reservoir, or the restarted one is still collecting; before `f` it decodes nothing.
   */
  lemma {:induction false} RunsRelated(us: seq<Unit>, f: nat, b: nat, k: nat)
    requires ValidUnits(us) && f <= |us| && DecodesFrom(us, f) && b <= k <= |us|
    ensures Run(us, b, k) == Run(us, 0, k) || Unmet(us, b, k)
    ensures forall j :: b <= j < k && j < f ==> !DecodesAt(us, b, j)
    decreases k
  {
    hide DecodesFrom, Run, Unmet, DecodesAt;
    if k > b {
      RunsRelated(us, f, b, k - 1);
      OneMoreFrame(us, f, b, k - 1);
    } else {
      UnmetAtRestart(us, b);
    }
  }

  lemma UnmetAtRestart(us: seq<Unit>, b: nat)
    requires ValidUnits(us) && b <= |us|
    ensures Unmet(us, b, b)
  {}

  lemma NothingEarlier(us: seq<Unit>, f: nat, b: nat, k: nat)
    requires ValidUnits(us) && f <= |us| && DecodesFrom(us, f) && b <= k < f
    ensures !DecodesAt(us, b, k)
  {
    hide DecodesFrom, Run, Unmet;
    RunsRelated(us, f, b, k + 1);
  }

  lemma OneMoreFrame(us: seq<Unit>, f: nat, b: nat, k: nat)
    requires ValidUnits(us) && f <= |us| && DecodesFrom(us, f) && b <= k < |us|
    requires Run(us, b, k) == Run(us, 0, k) || Unmet(us, b, k)
    ensures Run(us, b, k + 1) == Run(us, 0, k + 1) || Unmet(us, b, k + 1)
    ensures k < f ==> !DecodesAt(us, b, k)
  {
    assert DecodesAt(us, 0, k) <==> f <= k;
    if !us[k].Corrupt? && Run(us, b, k) != Run(us, 0, k) {
      if DecodesAt(us, b, k) {
        if k < f {
          NotEarlier(us, f, b, k);
        }
        SameMainData(us, b, k);
      } else if us[k].Usable? {
        Collecting(us, b, b, k + 1);
        assert Run(us, b, b) + Stream(us, b, k + 1) == Stream(us, b, k + 1);
      }
    }
  }

  lemma NotEarlier(us: seq<Unit>, f: nat, b: nat, k: nat)
    requires ValidUnits(us) && f <= |us| && DecodesFrom(us, f) && b <= k < f && Unmet(us, b, k) && !us[k].Corrupt?
    ensures |Run(us, b, k)| <= |Run(us, 0, k)| && !DecodesAt(us, b, k)
  {
    Collecting(us, 0, b, k);
    assert !DecodesAt(us, 0, k);
  }

  /** What both reservoirs hold at their ends is the same. */
  lemma TailsAgree(us: seq<Unit>, b: nat, k: nat, n: nat)
    requires ValidUnits(us) && b <= k <= |us| && Unbroken(us, b, k) && n <= |Run(us, 0, k)| && n <= |Run(us, b, k)|
    ensures KeepLast(Run(us, 0, k), n) == KeepLast(Run(us, b, k), n)
  {
    hide Run, Stream;
    var t := Run(us, 0, b) + Stream(us, b, k);
    RunIsSuffix(us, 0, b, k);
    RunIsSuffixOfStream(us, b, k);
    assert IsSuffix(Stream(us, b, k), t);
    hide *;
    SuffixTrans(Run(us, b, k), Stream(us, b, k), t);
    SuffixLast(Run(us, 0, k), t, n);
    SuffixLast(Run(us, b, k), t, n);
  }

  /** When a frame decodes in both runs it is decoded from the same bytes and leaves the same reservoir. */
  lemma SameMainData(us: seq<Unit>, b: nat, k: nat)
    requires ValidUnits(us) && b <= k < |us| && Unmet(us, b, k)
    requires DecodesAt(us, 0, k) && DecodesAt(us, b, k)
    ensures MainData(Run(us, b, k), us[k].frame) == MainData(Run(us, 0, k), us[k].frame)
    ensures Run(us, b, k + 1) == Run(us, 0, k + 1)
  {
    hide Stream, MainData, After;
    TailsAgree(us, b, k, us[k].frame.begin);
    SameAfter(Run(us, 0, k), Run(us, b, k), us[k].frame);
  }

  lemma SameAfter(r: seq<Byte>, s: seq<Byte>, f: L3Frame)
    requires f.Valid() && |r| >= f.begin && |s| >= f.begin && KeepLast(r, f.begin) == KeepLast(s, f.begin)
    ensures MainData(r, f) == MainData(s, f) && After(r, f) == After(s, f)
  {}

  /** A restart at `b` that has seen 511 bytes of main data by frame `m`, or passes a reset, or is the start. */
  predicate Filled(us: seq<Unit>, b: nat, m: nat)
    requires b <= m <= |us|
  {
    b == 0 || !Unbroken(us, b, m) || |Stream(us, b, m)| >= MAX_BITRESERVOIR_BYTES ||
    forall k :: 0 <= k < |us| && !us[k].Corrupt? ==> us[k].frame.begin == 0
  }

  /**
   * Resynchronisation: from frame `m` on the restarted run decodes exactly the frames the run from the start decodes,
   * each from the same main data, and the first decoded frame makes the reservoirs equal.
   */
  lemma Resynchronised(us: seq<Unit>, f: nat, b: nat, m: nat, k: nat)
    requires ValidUnits(us) && f <= |us| && DecodesFrom(us, f) && b <= m <= k < |us| && Filled(us, b, m)
    ensures DecodesAt(us, b, k) <==> DecodesAt(us, 0, k)
    ensures DecodesAt(us, b, k) ==> MainData(Run(us, b, k), us[k].frame) == MainData(Run(us, 0, k), us[k].frame)
    ensures DecodesAt(us, b, k) ==> Run(us, b, k + 1) == Run(us, 0, k + 1)
  {
    RunsRelated(us, f, b, k);
    OneMoreFrame(us, f, b, k);
    assert DecodesAt(us, 0, k) <==> f <= k;
    if Run(us, b, k) == Run(us, 0, k) {
      StaysEqual(us, 0, b, k, k + 1);
    } else if f <= k {
      UnmetButFilled(us, b, m, k);
      SameMainData(us, b, k);
    }
  }

  /** From its first decoded frame on, the restarted run has the reservoir of the run from the start for good. */
  lemma ResynchronisedForGood(us: seq<Unit>, f: nat, b: nat, m: nat, k: nat, n: nat)
    requires ValidUnits(us) && f <= |us| && DecodesFrom(us, f) && b <= m <= k < |us| && Filled(us, b, m)
    requires DecodesAt(us, b, k) && k < n <= |us|
    ensures Run(us, b, n) == Run(us, 0, n)
  {
    hide Run, DecodesFrom, DecodesAt, Filled, MainData;
    Resynchronised(us, f, b, m, k);
    StaysEqual(us, 0, b, k + 1, n);
  }

  lemma UnmetButFilled(us: seq<Unit>, b: nat, m: nat, k: nat)
    requires ValidUnits(us) && b <= m <= k < |us| && Filled(us, b, m) && Unmet(us, b, k)
    requires b != 0 && !us[k].Corrupt?
    ensures DecodesAt(us, b, k)
  {
    StreamGrows(us, b, m, k);
    assert us[k].frame.Valid();
  }

  lemma {:induction false} StaysEqual(us: seq<Unit>, a: nat, b: nat, k: nat, n: nat)
    requires ValidUnits(us) && a <= k <= n <= |us| && b <= k && Run(us, a, k) == Run(us, b, k)
    ensures Run(us, a, n) == Run(us, b, n)
    decreases n
  {
    if n > k {
      StaysEqual(us, a, b, k, n - 1);
    }
  }

  lemma {:induction false} StreamGrows(us: seq<Unit>, b: nat, m: nat, k: nat)
    requires b <= m <= k <= |us| && Unbroken(us, b, k)
    ensures |Stream(us, b, m)| <= |Stream(us, b, k)|
    decreases k
  {
    if k > m {
      StreamGrows(us, b, m, k - 1);
    }
  }

  /** Once a frame has decoded after the restart the reservoirs agree for good. */
  lemma MetOnce(us: seq<Unit>, f: nat, b: nat, j: nat, k: nat)
    requires ValidUnits(us) && f <= |us| && DecodesFrom(us, f) && b <= j < k <= |us| && DecodesAt(us, b, j)
    ensures Run(us, b, k) == Run(us, 0, k)
  {
    hide DecodesFrom, DecodesAt, Run;
    RunsRelated(us, f, b, j + 1);
    StaysEqual(us, 0, b, j + 1, k);
  }

  lemma NeverMet(us: seq<Unit>, b: nat, k: nat)
    requires ValidUnits(us) && b <= k <= |us| && Unbroken(us, b, k)
    requires |Stream(us, b, k)| >= MAX_BITRESERVOIR_BYTES
    requires forall j :: b <= j < k ==> !DecodesAt(us, b, j)
    ensures Run(us, b, k) == Run(us, 0, k) <==> |Run(us, 0, k)| == MAX_BITRESERVOIR_BYTES
  {
    Collecting(us, b, b, k);
    RunIsSuffix(us, 0, b, k);
    assert Run(us, b, b) == [];
    hide Run, Stream, Unbroken;
    assert [] + Stream(us, b, k) == Stream(us, b, k);
    var t := Run(us, 0, b) + Stream(us, b, k);
    assert IsSuffix(Stream(us, b, k), t);
    SuffixLast(Stream(us, b, k), t, MAX_BITRESERVOIR_BYTES);
    assert |KeepLast(t, MAX_BITRESERVOIR_BYTES)| == MAX_BITRESERVOIR_BYTES;
    if |Run(us, 0, k)| == MAX_BITRESERVOIR_BYTES {
      SuffixLast(Run(us, 0, k), t, MAX_BITRESERVOIR_BYTES);
    }
  }

  /**
   * The reservoir itself agrees before frame `k` exactly when some frame has decoded since the restart or it was
   * full.
   */
  lemma SameReservoirIff(us: seq<Unit>, f: nat, b: nat, k: nat)
    requires ValidUnits(us) && f <= |us| && DecodesFrom(us, f) && b <= k <= |us| && Unbroken(us, b, k)
    requires |Stream(us, b, k)| >= MAX_BITRESERVOIR_BYTES
    ensures Run(us, b, k) == Run(us, 0, k) <==>
              (exists j :: b <= j < k && DecodesAt(us, b, j)) || |Run(us, 0, k)| == MAX_BITRESERVOIR_BYTES
  {
    hide Run, Stream, DecodesFrom, DecodesAt;
    if j :| b <= j < k && DecodesAt(us, b, j) {
      MetOnce(us, f, b, j, k);
    } else {
      NeverMet(us, b, k);
    }
  }

  /**
   * Two frames for which the reservoirs differ after 511 bytes: 555 bytes of main data each, as a frame of 192 kbps at
   * 48 kHz in mono has, the second referring back to one byte and using 4088 bits.
   */
  lemma ReservoirMayDiffer(first: seq<Byte>, second: seq<Byte>)
    requires |first| == |second| == 555
    ensures var us := [Usable(L3Frame(0, 0, first)), Usable(L3Frame(1, 4088, second))];
      ValidUnits(us) && DecodesFrom(us, 0) && |Stream(us, 1, 2)| >= MAX_BITRESERVOIR_BYTES &&
      Run(us, 0, 2) == second[510..] && Run(us, 1, 2) == second[44..]
  {
    hide Run, Stream, After;
    var us := [Usable(L3Frame(0, 0, first)), Usable(L3Frame(1, 4088, second))];
    NothingYet(us, 0);
    NothingYet(us, 1);
    OneFrame(us, 0, 0, 0);
    OneFrame(us, 0, 0, 1);
    OneFrame(us, 1, 1, 1);
    LeavesBehind([], 0, first);
    LeavesBehind(Run(us, 0, 1), 1, second);
    LeavesBehind([], 1, second);
    assert [] + second == second;
    assert forall k :: 0 <= k < 2 ==> DecodesAt(us, 0, k);
  }

  lemma NothingYet(us: seq<Unit>, i: nat)
    requires ValidUnits(us) && i <= |us|
    ensures Run(us, i, i) == [] && Stream(us, i, i) == []
  {}

  lemma LeavesBehind(r: seq<Byte>, begin: nat, data: seq<Byte>)
    requires begin <= 1 && |data| == 555
    ensures var f := L3Frame(begin, 4088 * begin, data);
      f.Valid() &&
      After(r, f) == if begin == 1 && r != [] then data[510..] else data[44..]
  {
    var f := L3Frame(begin, 4088 * begin, data);
    if begin == 1 && r != [] {
      assert MainData(r, f)[511..] == data[510..];
    } else {
      assert MainData(r, f) == data;
    }
  }
}
