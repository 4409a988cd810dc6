/** Frame synchronisation: chain matching, frame search and iteration over a buffer. */
module Sync {
  import opened Bits
  import opened Header
  import opened Wrappers

  const MAX_FREE_FORMAT_FRAME_SIZE: nat := 2304
  const MAX_FRAME_SYNC_MATCHES: nat := 10

  /** A valid header lies at offset `i`. */
  predicate HeaderAt(b: seq<Byte>, i: nat) {
    i + HDR_SIZE <= |b| && At(b, i).Valid()
  }

  predicate Follows(b: seq<Byte>, i: nat, j: nat) {
    i + HDR_SIZE <= |b| && j + HDR_SIZE <= |b| && At(b, i).Compare(At(b, j))
  }

  /** The length of the frame whose header lies at `i`, padding included. */
  function FrameSize(b: seq<Byte>, i: nat, ff: nat): nat
    requires HeaderAt(b, i)
  {
    At(b, i).FrameBytes(ff) + At(b, i).Padding()
  }

  /** The length of a frame over its bytes; MPEG-1 Layer III at 128 kbps and 44.1 kHz takes 417 bytes, or one more. */
  lemma FrameSizeLaw(b: seq<Byte>, i: nat, ff: nat)
    requires HeaderAt(b, i)
    ensures var (version, layer, padding) := ((b[i + 1] / 8) % 4, 4 - (b[i + 1] / 2) % 4, (b[i + 2] / 2) % 2);
      var (size, kbps, hz) := (FrameSize(b, i, ff), At(b, i).BitrateKbps(), At(b, i).SampleRateHz());
      if b[i + 2] / 16 == 0 then size == ff + (if layer == 1 then 4 * padding else padding)
      else if layer == 1 then size == 4 * (Slots(12000, kbps, hz) + padding)
      else size == Slots(if layer == 2 || version == 3 then 144000 else 72000, kbps, hz) + padding
    ensures b[i + 1] == 0xFB && b[i + 2] == 0x90 ==> FrameSize(b, i, ff) == 417
    ensures b[i + 1] == 0xFB && b[i + 2] == 0x92 ==> FrameSize(b, i, ff) == 418
  {
    hide Header.BitrateKbps, Header.SampleRateHz, Header.FrameBytes, Slots;
    LengthLaw(At(b, i), ff);
    if b[i + 1] == 0xFB && b[i + 2] / 16 == 9 && (b[i + 2] / 4) % 4 == 0 { Common(At(b, i)); }
  }

  lemma Common(h: Header)
    requires h.Valid() && h.b1 == 0xFB && h.b2 / 16 == 9 && (h.b2 / 4) % 4 == 0
    ensures Slots(144000, h.BitrateKbps(), h.SampleRateHz()) == 417
  {
    hide Slots;
    RateLaw(h);
    OctavesAre();
    BitrateLaw(h);
    SlotsAre();
  }

  lemma SlotsAre()
    ensures Slots(144000, 128, 44100) == 417
  {}

  // ---------------------------------------------------------------- chain matching

  /** The offset of the m-th header of the chain that starts at `i`, if all of them fit and belong to one stream. */
  function Chain(b: seq<Byte>, i: nat, ff: nat, m: nat): (p: Option<nat>)
    requires HeaderAt(b, i)
    ensures p.Some? ==> i <= p.value && HeaderAt(b, p.value)
  {
    if m == 0 then Some(i) else
    var p := Chain(b, i, ff, m - 1);
    if p.None? then None else
    var q := p.value + FrameSize(b, p.value, ff);
    if Follows(b, i, q) then Some(q) else None
  }

  /** Ten more headers follow, or at least one does before the buffer ends. */
  ghost predicate Chained(b: seq<Byte>, i: nat, ff: nat)
    requires HeaderAt(b, i)
  {
    Chain(b, i, ff, MAX_FRAME_SYNC_MATCHES).Some? ||
    exists m :: 1 <= m < MAX_FRAME_SYNC_MATCHES && EndsAfter(b, i, ff, m)
  }

  /** The chain has `m` further headers and the next one would lie beyond the buffer. */
  predicate EndsAfter(b: seq<Byte>, i: nat, ff: nat, m: nat)
    requires HeaderAt(b, i)
  {
    var p := Chain(b, i, ff, m);
    p.Some? && p.value + FrameSize(b, p.value, ff) + HDR_SIZE > |b|
  }

  lemma {:induction false} ChainPrefix(b: seq<Byte>, i: nat, ff: nat, m: nat, n: nat)
    requires HeaderAt(b, i) && m <= n && Chain(b, i, ff, n).Some?
    ensures Chain(b, i, ff, m).Some?
    ensures m < n ==> !EndsAfter(b, i, ff, m)
    decreases n
  {
    if m < n {
      if m < n - 1 {
        ChainPrefix(b, i, ff, m, n - 1);
      }
    }
  }

  lemma ChainedFollows(b: seq<Byte>, i: nat, ff: nat)
    requires HeaderAt(b, i) && Chained(b, i, ff)
    ensures Follows(b, i, i + FrameSize(b, i, ff))
  {
    hide FrameSize, Follows;
    if Chain(b, i, ff, MAX_FRAME_SYNC_MATCHES).Some? {
      ChainPrefix(b, i, ff, 1, MAX_FRAME_SYNC_MATCHES);
    } else {
      var m :| 1 <= m < MAX_FRAME_SYNC_MATCHES && EndsAfter(b, i, ff, m);
      ChainPrefix(b, i, ff, 1, m);
    }
    assert Chain(b, i, ff, 0) == Some(i);
  }

  /** mp3d_match_frame for the header at `i`. */
  method MatchFrame(b: seq<Byte>, i: nat, ff: nat) returns (matched: bool)
    requires HeaderAt(b, i)
    ensures matched <==> Chained(b, i, ff)
  {
    hide Chain, Chained, EndsAfter, FrameSize, Header.Valid, Header.Compare;
    var at, nmatch := i, 0;
    ChainStart(b, i, ff);
    while nmatch < MAX_FRAME_SYNC_MATCHES
      invariant nmatch <= MAX_FRAME_SYNC_MATCHES && Chain(b, i, ff, nmatch) == Some(at)
    {
      ChainStep(b, i, ff, nmatch);
      at := at + FrameSize(b, at, ff);
      if at + HDR_SIZE > |b| {
        EndIsUnique(b, i, ff, nmatch);
        return nmatch > 0;
      }
      if !At(b, i).Compare(At(b, at)) {
        BrokenChain(b, i, ff, nmatch);
        return false;
      }
      nmatch := nmatch + 1;
    }
    ChainOfTen(b, i, ff);
    return true;
  }

  lemma ChainStart(b: seq<Byte>, i: nat, ff: nat)
    requires HeaderAt(b, i)
    ensures Chain(b, i, ff, 0) == Some(i)
  {}

  lemma ChainStep(b: seq<Byte>, i: nat, ff: nat, m: nat)
    requires HeaderAt(b, i) && Chain(b, i, ff, m).Some?
    ensures var p := Chain(b, i, ff, m).value;
      var q := p + FrameSize(b, p, ff);
      Chain(b, i, ff, m + 1) == (if Follows(b, i, q) then Some(q) else None) &&
      (EndsAfter(b, i, ff, m) <==> q + HDR_SIZE > |b|)
  {}

  lemma ChainOfTen(b: seq<Byte>, i: nat, ff: nat)
    requires HeaderAt(b, i) && Chain(b, i, ff, MAX_FRAME_SYNC_MATCHES).Some?
    ensures Chained(b, i, ff)
  {}

  lemma EndIsUnique(b: seq<Byte>, i: nat, ff: nat, m: nat)
    requires HeaderAt(b, i) && m < MAX_FRAME_SYNC_MATCHES && EndsAfter(b, i, ff, m)
    ensures Chained(b, i, ff) <==> m > 0
  {
    assert Chain(b, i, ff, m + 1).None?;
    if Chained(b, i, ff) && m == 0 {
      if Chain(b, i, ff, MAX_FRAME_SYNC_MATCHES).Some? {
        ChainPrefix(b, i, ff, 1, MAX_FRAME_SYNC_MATCHES);
      } else {
        var n :| 1 <= n < MAX_FRAME_SYNC_MATCHES && EndsAfter(b, i, ff, n);
        ChainPrefix(b, i, ff, 1, n);
      }
    }
  }

  lemma BrokenChain(b: seq<Byte>, i: nat, ff: nat, m: nat)
    requires HeaderAt(b, i) && m < MAX_FRAME_SYNC_MATCHES && Chain(b, i, ff, m + 1).None?
    requires Chain(b, i, ff, m).Some? && !EndsAfter(b, i, ff, m)
    ensures !Chained(b, i, ff)
  {
    hide Chain, EndsAfter;
    if Chain(b, i, ff, MAX_FRAME_SYNC_MATCHES).Some? {
      ChainPrefix(b, i, ff, m + 1, MAX_FRAME_SYNC_MATCHES);
    }
    forall n | 1 <= n < MAX_FRAME_SYNC_MATCHES ensures !EndsAfter(b, i, ff, n) {
      EndsNowhereElse(b, i, ff, m, n);
    }
  }

  lemma EndsNowhereElse(b: seq<Byte>, i: nat, ff: nat, m: nat, n: nat)
    requires HeaderAt(b, i) && Chain(b, i, ff, m + 1).None? && Chain(b, i, ff, m).Some? && !EndsAfter(b, i, ff, m)
    ensures !EndsAfter(b, i, ff, n)
  {
    if n > m && EndsAfter(b, i, ff, n) {
      ChainPrefix(b, i, ff, m + 1, n);
    } else if n < m {
      ChainPrefix(b, i, ff, n, m);
    }
  }

  lemma SameLength(h: Header, ff: nat, gg: nat)
    requires h.Valid() && !h.IsFreeFormat()
    ensures h.FrameBytes(ff) == h.FrameBytes(gg)
  {
    FrameLengthFromHeader(h, 0);
  }

  /** The length a search has found matters for free-format frames only. */
  lemma {:induction false} ChainAlike(b: seq<Byte>, i: nat, ff: nat, gg: nat, m: nat)
    requires HeaderAt(b, i) && !At(b, i).IsFreeFormat()
    ensures var p := Chain(b, i, ff, m); p == Chain(b, i, gg, m) && (p.Some? ==> !At(b, p.value).IsFreeFormat())
  {
    hide Header.Valid, Header.FrameBytes;
    if m > 0 {
      ChainAlike(b, i, ff, gg, m - 1);
      var p := Chain(b, i, ff, m - 1);
      if p.Some? { SameLength(At(b, p.value), ff, gg); }
    }
  }

  lemma ChainedAlike(b: seq<Byte>, i: nat, ff: nat, gg: nat)
    requires HeaderAt(b, i) && !At(b, i).IsFreeFormat()
    ensures Chained(b, i, ff) <==> Chained(b, i, gg)
  {
    hide Header.Valid, Header.FrameBytes, Header.IsFreeFormat, Chain;
    forall m ensures EndsAfter(b, i, ff, m) <==> EndsAfter(b, i, gg, m) {
      ChainAlike(b, i, ff, gg, m);
      var p := Chain(b, i, ff, m);
      if p.Some? { SameLength(At(b, p.value), ff, gg); }
    }
    ChainAlike(b, i, ff, gg, MAX_FRAME_SYNC_MATCHES);
  }

  // ---------------------------------------------------------------- chains of frames

  /** Frame `j` of frames that lie back to back and belong to one stream. */
  ghost predicate Lies(b: seq<Byte>, fs: seq<FrameRef>, ff: nat, j: nat)
    requires j < |fs|
  {
    var f := fs[j];
    HeaderAt(b, f.offset) && f.size == FrameSize(b, f.offset, ff) &&
    (j + 1 < |fs| ==> f.End() == fs[j + 1].offset && Follows(b, f.offset, fs[j + 1].offset))
  }

  /** A row of such frames, with the end of the range or no further header of theirs behind it. */
  ghost predicate Row(b: seq<Byte>, fs: seq<FrameRef>, ff: nat) {
    (forall j: nat :: j < |fs| ==> Lies(b, fs, ff, j)) &&
    (|fs| > 0 ==> !Follows(b, fs[|fs| - 1].offset, fs[|fs| - 1].End()))
  }

  /** Belonging to one stream is an equivalence of valid headers. */
  lemma CompareIsEquivalence(g: Header, h: Header, k: Header)
    ensures g.Valid() ==> g.Compare(g)
    ensures g.Valid() && g.Compare(h) ==> h.Compare(g)
    ensures g.Compare(h) && h.Compare(k) ==> g.Compare(k)
    ensures g.Compare(h) && g.Compare(k) ==> h.Compare(k)
  {}

  lemma {:induction false} ChainInRow(b: seq<Byte>, fs: seq<FrameRef>, ff: nat, j: nat, m: nat)
    requires Row(b, fs, ff) && j + m < |fs|
    ensures HeaderAt(b, fs[j].offset) && HeaderAt(b, fs[j + m].offset)
    ensures Chain(b, fs[j].offset, ff, m) == Some(fs[j + m].offset)
    ensures At(b, fs[j].offset).Compare(At(b, fs[j + m].offset))
  {
    hide Header.Valid, Header.Compare, FrameSize;
    assert Lies(b, fs, ff, j + m);
    var g := At(b, fs[j + m].offset);
    if m > 0 {
      ChainInRow(b, fs, ff, j, m - 1);
      var p := j + (m - 1);
      assert Lies(b, fs, ff, p);
      CompareIsEquivalence(At(b, fs[j].offset), At(b, fs[p].offset), g);
    } else {
      CompareIsEquivalence(g, g, g);
    }
  }

  /**
   * A frame of the row is chained if and only if ten more frames follow; before the end of the range, where nothing
   * contradicts it, one is enough.
   */
  lemma ChainedIff(b: seq<Byte>, fs: seq<FrameRef>, ff: nat, j: nat)
    requires Row(b, fs, ff) && j < |fs|
    ensures HeaderAt(b, fs[j].offset)
    ensures var gap := fs[|fs| - 1].End() + HDR_SIZE <= |b|;
      Chained(b, fs[j].offset, ff) <==> j + (if gap then 10 else 1) < |fs|
  {
    hide Header.Valid, Header.Compare, FrameSize, Chained, Row, Chain, EndsAfter;
    var i, m := fs[j].offset, |fs| - 1 - j;
    ChainInRow(b, fs, ff, j, m);
    ChainStep(b, i, ff, m);
    RowEnds(b, fs, ff, j);
    if j + MAX_FRAME_SYNC_MATCHES < |fs| {
      ChainInRow(b, fs, ff, j, MAX_FRAME_SYNC_MATCHES);
      ChainOfTen(b, i, ff);
    } else if EndsAfter(b, i, ff, m) {
      EndIsUnique(b, i, ff, m);
    } else {
      BrokenChain(b, i, ff, m);
    }
  }

  lemma RowEnds(b: seq<Byte>, fs: seq<FrameRef>, ff: nat, j: nat)
    requires Row(b, fs, ff) && j < |fs|
    ensures var f := fs[|fs| - 1];
      HeaderAt(b, f.offset) && f.End() == f.offset + FrameSize(b, f.offset, ff) && !Follows(b, fs[j].offset, f.End())
  {
    hide Header.Valid, Header.Compare, FrameSize, Chain;
    var n: nat := |fs| - 1;
    assert Lies(b, fs, ff, n);
    ChainInRow(b, fs, ff, j, n - j);
    if fs[n].End() + HDR_SIZE <= |b| {
      CompareIsEquivalence(At(b, fs[j].offset), At(b, fs[n].offset), At(b, fs[n].End()));
    }
  }

  // ---------------------------------------------------------------- the length of a free-format frame

  /** Two more headers of its stream follow a header at `i` at a distance of `k` bytes, but for their padding. */
  predicate TwoFollow(b: seq<Byte>, i: nat, k: nat)
    requires HeaderAt(b, i) && k >= HDR_SIZE
  {
    i + 2 * k < |b| - HDR_SIZE && Follows(b, i, i + k) &&
    var next := i + k + (k - At(b, i).Padding() + At(b, i + k).Padding());
    Follows(b, i, next)
  }

  /** A free-format header at `i` may have a frame of `k` bytes. */
  predicate FreeCandidate(b: seq<Byte>, i: nat, k: nat)
    requires HeaderAt(b, i)
  {
    HDR_SIZE <= k < MAX_FREE_FORMAT_FRAME_SIZE && TwoFollow(b, i, k)
  }

  /** The shortest candidate of at least `k` bytes with a body. */
  ghost function FreeLength(b: seq<Byte>, i: nat, k: nat): Option<nat>
    requires HeaderAt(b, i)
    decreases MAX_FREE_FORMAT_FRAME_SIZE - k
  {
    if k >= MAX_FREE_FORMAT_FRAME_SIZE || i + 2 * k >= |b| - HDR_SIZE then None
    else if FreeCandidate(b, i, k) && k > At(b, i).Padding() then Some(k)
    else FreeLength(b, i, k + 1)
  }

  lemma {:induction false} FreeLengthIsCandidate(b: seq<Byte>, i: nat, k: nat)
    requires HeaderAt(b, i)
    ensures FreeLength(b, i, k).Some? ==>
              var n := FreeLength(b, i, k).value;
              k <= n && FreeCandidate(b, i, n) && n > At(b, i).Padding()
    decreases MAX_FREE_FORMAT_FRAME_SIZE - k
  {
    if k < MAX_FREE_FORMAT_FRAME_SIZE && i + 2 * k < |b| - HDR_SIZE {
      FreeLengthIsCandidate(b, i, k + 1);
    }
  }

  /** The length of a free-format frame: the least such distance below 2304 bytes that leaves it a body. */
  lemma FreeLengthIff(b: seq<Byte>, i: nat, n: nat)
    requires HeaderAt(b, i)
    ensures FreeLength(b, i, HDR_SIZE) == Some(n) <==>
      4 <= n < 2304 && TwoFollow(b, i, n) && n > At(b, i).Padding() &&
      forall k: nat :: 4 <= k < n && TwoFollow(b, i, k) ==> k <= At(b, i).Padding()
  {
    hide FreeLength, TwoFollow, Header.Valid, Header.Padding;
    NoneShorter(b, i, HDR_SIZE, n);
    if FreeLength(b, i, HDR_SIZE).Some? {
      NoneShorter(b, i, HDR_SIZE, FreeLength(b, i, HDR_SIZE).value);
    }
  }

  lemma {:induction false} NoneShorter(b: seq<Byte>, i: nat, k: nat, n: nat)
    requires HeaderAt(b, i) && k >= HDR_SIZE
    ensures FreeLength(b, i, k) == Some(n) ==>
              k <= n < 2304 && TwoFollow(b, i, n) && n > At(b, i).Padding() &&
              forall j: nat :: k <= j < n && TwoFollow(b, i, j) ==> j <= At(b, i).Padding()
    ensures k <= n < 2304 && TwoFollow(b, i, n) && n > At(b, i).Padding() ==>
              FreeLength(b, i, k).Some? && FreeLength(b, i, k).value <= n
    decreases MAX_FREE_FORMAT_FRAME_SIZE - k
  {
    hide Follows, Header.Valid, Header.Padding;
    if k < MAX_FREE_FORMAT_FRAME_SIZE && i + 2 * k < |b| - HDR_SIZE { NoneShorter(b, i, k + 1, n); }
  }

  // ---------------------------------------------------------------- frame search

  /** A frame found: where it starts, its length with padding, and the body length of a free-format stream (else 0). */
  datatype FrameRef = FrameRef(offset: nat, size: nat, freeFormat: nat) {
    function End(): nat { offset + size }
  }

  /** What the header at `i` is taken for when the search began at `lo`. */
  ghost function Accepted(b: seq<Byte>, lo: nat, i: nat): (r: Option<FrameRef>)
    requires HeaderAt(b, i)
    ensures r.Some? ==> r.value.offset == i && 0 < r.value.size && r.value.End() <= |b|
    ensures r.Some? ==> r.value.size <= MAX_FREE_FORMAT_FRAME_SIZE && r.value.freeFormat < MAX_FREE_FORMAT_FRAME_SIZE
  {
    var h := At(b, i);
    if h.IsFreeFormat() then
      FreeLengthIsCandidate(b, i, HDR_SIZE);
      var k := FreeLength(b, i, HDR_SIZE);
      if k.Some? && Chained(b, i, k.value - h.Padding()) then Some(FrameRef(i, k.value, k.value - h.Padding()))
      else None
    else
      FrameLengthFromHeader(h, 0);
      var n := FrameSize(b, i, 0);
      if (i + n <= |b| && Chained(b, i, h.FrameBytes(0))) || (i == lo && i + n == |b|) then Some(FrameRef(i, n, 0))
      else None
  }

  predicate InScan(b: seq<Byte>, i: int) { i < |b| - HDR_SIZE }

  /** The first accepted frame at or after `i`. */
  ghost function Find(b: seq<Byte>, lo: nat, i: nat): (r: Option<FrameRef>)
    ensures r.Some? ==> i <= r.value.offset && 0 < r.value.size && r.value.End() <= |b|
    ensures r.Some? ==> r.value.size <= MAX_FREE_FORMAT_FRAME_SIZE && r.value.freeFormat < MAX_FREE_FORMAT_FRAME_SIZE
    ensures r.Some? ==> HeaderAt(b, r.value.offset) && Accepted(b, lo, r.value.offset) == r
    decreases |b| - i
  {
    if !InScan(b, i) then None
    else if HeaderAt(b, i) && Accepted(b, lo, i).Some? then Accepted(b, lo, i)
    else Find(b, lo, i + 1)
  }

  /** The inner loop of mp3d_find_frame. */
  method FindFreeLength(b: seq<Byte>, i: nat) returns (size: nat, body: nat)
    requires HeaderAt(b, i) && At(b, i).IsFreeFormat()
    ensures var k := FreeLength(b, i, HDR_SIZE);
      if k.Some? then size == k.value && body == size - At(b, i).Padding() > 0
      else body == 0 && size <= HDR_SIZE
  {
    hide Header.Valid, Header.Compare;
    body, size := 0, At(b, i).Padding();
    var k := HDR_SIZE;
    while body == 0 && k < MAX_FREE_FORMAT_FRAME_SIZE && i + 2 * k < |b| - HDR_SIZE
      invariant HDR_SIZE <= k <= MAX_FREE_FORMAT_FRAME_SIZE
      invariant body == 0 ==> FreeLength(b, i, HDR_SIZE) == FreeLength(b, i, k) && size <= HDR_SIZE
      invariant body > 0 ==> FreeLength(b, i, HDR_SIZE) == Some(size) && body == size - At(b, i).Padding()
      decreases MAX_FREE_FORMAT_FRAME_SIZE - k
    {
      if At(b, i).Compare(At(b, i + k)) {
        var fb := k - At(b, i).Padding();
        var nextfb := fb + At(b, i + k).Padding();
        if i + k + nextfb + HDR_SIZE > |b| || !At(b, i).Compare(At(b, i + k + nextfb)) {
          k := k + 1;
          continue;
        }
        size, body := k, fb;
      }
      k := k + 1;
    }
  }

  /** The body of the mp3d_find_frame loop for a valid header at `i`. */
  method TryHeader(b: seq<Byte>, lo: nat, i: nat) returns (found: bool, freeFormat: nat, size: nat)
    requires lo <= i && HeaderAt(b, i) && InScan(b, i)
    ensures found <==> Accepted(b, lo, i).Some?
    ensures found ==> Accepted(b, lo, i) == Some(FrameRef(i, size, freeFormat))
  {
    hide Chain, Chained, FreeLength, Follows;
    var h := At(b, i);
    freeFormat := 0;
    FrameLengthFromHeader(h, freeFormat);
    var body := h.FrameBytes(freeFormat);
    size := body + h.Padding();
    if body == 0 {
      FreeLengthIsCandidate(b, i, HDR_SIZE);
      size, body := FindFreeLength(b, i);
      freeFormat := body;
    }
    var matched := false;
    if body != 0 && i + size <= |b| {
      matched := MatchFrame(b, i, body);
    }
    found := matched || (i == lo && size == |b| - lo);
  }

  /**
   * mp3d_find_frame on the bytes from `lo` on, with the free-format length zeroed by the caller.
   * `skip` and `size` are what it returns; a size of 0 says that nothing was found and everything is skipped.
   */
  method FindFrame(b: seq<Byte>, lo: nat) returns (skip: nat, freeFormat: nat, size: nat)
    requires lo <= |b|
    ensures Find(b, lo, lo).Some? ==> Find(b, lo, lo) == Some(FrameRef(lo + skip, size, freeFormat))
    ensures Find(b, lo, lo).None? ==> skip == |b| - lo && size == 0 && freeFormat == 0
    ensures skip + size <= |b| - lo && (size == 0 <==> Find(b, lo, lo).None?)
  {
    hide Accepted, Header.Valid;
    skip, freeFormat := 0, 0;
    while lo + skip < |b| - HDR_SIZE
      invariant lo + skip <= |b| && freeFormat == 0
      invariant Find(b, lo, lo) == Find(b, lo, lo + skip)
      decreases |b| - skip
    {
      if At(b, lo + skip).Valid() {
        var found;
        found, freeFormat, size := TryHeader(b, lo, lo + skip);
        if found {
          return;
        }
        freeFormat := 0;
      }
      skip := skip + 1;
    }
    size := 0;
    skip := |b| - lo;
  }

  // ---------------------------------------------------------------- tags around the audio

  predicate TextAt(b: seq<Byte>, i: nat, text: seq<Byte>) {
    i + |text| <= |b| && b[i..i + |text|] == text
  }

  const ID3: seq<Byte> := [0x49, 0x44, 0x33]
  const TAG: seq<Byte> := [0x54, 0x41, 0x47]
  const TAG_PLUS: seq<Byte> := [0x54, 0x41, 0x47, 0x2B]
  const APETAGEX: seq<Byte> := [0x41, 0x50, 0x45, 0x54, 0x41, 0x47, 0x45, 0x58]

  /** mp3dec_skip_id3v2: the length of a leading tag, 0 if there is none. */
  function Id3v2Size(b: seq<Byte>): nat {
    if |b| >= 10 && TextAt(b, 0, ID3) && b[5] % 16 == 0 &&
       b[6] < 0x80 && b[7] < 0x80 && b[8] < 0x80 && b[9] < 0x80
    then SyncSafe(b[6], b[7], b[8], b[9]) + 10 + (if (b[5] / 16) % 2 == 1 then 10 else 0)
    else 0
  }

  function SyncSafe(b0: nat, b1: nat, b2: nat, b3: nat): nat {
    ((b0 * 128 + b1) * 128 + b2) * 128 + b3
  }

  /** mp3dec_skip_id3v1: how much is left before an ID3v1 and an APE tag at the end. */
  method SkipId3v1(b: seq<Byte>) returns (size: nat)
    ensures size <= |b|
    ensures size == WithoutApe(b, WithoutId3v1(b))
  {
    size := |b|;
    if size >= 128 && TextAt(b, size - 128, TAG) {
      size := size - 128;
      if size >= 227 && TextAt(b, size - 227, TAG_PLUS) {
        size := size - 227;
      }
    }
    if size > 32 && TextAt(b, size - 32, APETAGEX) {
      size := size - 32;
      var tagSize := BigEndian(b[size + 15], b[size + 14], b[size + 13], b[size + 12]);
      if size >= tagSize {
        size := size - tagSize;
      }
    }
  }

  function WithoutId3v1(b: seq<Byte>): (n: nat)
    ensures n <= |b|
  {
    if !(|b| >= 128 && TextAt(b, |b| - 128, TAG)) then |b|
    else if |b| >= 355 && TextAt(b, |b| - 355, TAG_PLUS) then |b| - 355
    else |b| - 128
  }

  function WithoutApe(b: seq<Byte>, n: nat): (m: nat)
    requires n <= |b|
    ensures m <= n
  {
    if n <= 32 || !TextAt(b, n - 32, APETAGEX) then n else
    var tagSize := BigEndian(b[n - 17], b[n - 18], b[n - 19], b[n - 20]);
    if tagSize <= n - 32 then n - 32 - tagSize else n - 32
  }

  /** An ID3v1 tag is taken off whole, with its extension if it has one, and nothing else. */
  lemma Id3v1IsStripped(audio: seq<Byte>, extension: seq<Byte>, tag: seq<Byte>)
    requires |tag| == 128 && tag[0..3] == [0x54, 0x41, 0x47]
    requires extension == [] || (|extension| == 227 && extension[0..4] == [0x54, 0x41, 0x47, 0x2B])
    requires extension == [] ==>
               |audio| < 227 || audio[|audio| - 227..|audio| - 223] != [0x54, 0x41, 0x47, 0x2B]
    ensures WithoutId3v1(audio + extension + tag) == |audio|
  {
    var b := audio + extension + tag;
    assert b[|b| - 128..|b| - 125] == tag[0..3];
    if extension == [] {
      assert |audio| >= 227 ==> b[|b| - 355..|b| - 351] == audio[|audio| - 227..|audio| - 223];
    } else {
      assert b[|b| - 355..|b| - 351] == extension[0..4];
    }
  }

  /**
   * An APE tag with a header is taken off whole. The size in the footer does not count the header, which the code
   * always takes off, so that a tag without one costs 32 bytes of the audio.
   */
  lemma ApeIsStripped(audio: seq<Byte>, head: seq<Byte>, items: seq<Byte>, footer: seq<Byte>, rest: seq<Byte>)
    requires |footer| == 32 && footer[0..8] == [0x41, 0x50, 0x45, 0x54, 0x41, 0x47, 0x45, 0x58]
    requires |head| == 32 || (head == [] && |audio| >= 32)
    requires |items| + 32 ==
      (footer[12] as int) + (footer[13] as int) * 256 + (footer[14] as int) * 65536 + (footer[15] as int) * 16777216
    ensures WithoutApe(audio + head + items + footer + rest, |audio + head + items + footer|)
         == |audio| - if head == [] then 32 else 0
  {
    var b, n := audio + head + items + footer + rest, |audio + head + items + footer|;
    assert b[n - 32..n - 24] == footer[0..8];
    assert b[n - 17] == footer[15] && b[n - 18] == footer[14] && b[n - 19] == footer[13] && b[n - 20] == footer[12];
  }

  /** The range [lo, hi) between the tags. */
  function AudioRange(buf: seq<Byte>): (r: (nat, nat))
    ensures r.0 <= r.1 <= |buf|
  {
    var lo := if Id3v2Size(buf) > |buf| then |buf| else Id3v2Size(buf);
    var rest := buf[lo..];
    (lo, lo + WithoutApe(rest, WithoutId3v1(rest)))
  }

  /**
   * A leading ID3v2 tag is taken off whole: its ten bytes of header, as many bytes as four size bytes of seven bits
   * say, and ten bytes of footer if the header announces one. What is left is stripped at its end alone.
   */
  lemma Id3v2IsStripped(head: seq<Byte>, body: seq<Byte>, footer: seq<Byte>, audio: seq<Byte>)
    requires |head| == 10 && head[0..3] == [0x49, 0x44, 0x33] && head[5] % 16 == 0
    requires head[6] < 128 && head[7] < 128 && head[8] < 128 && head[9] < 128
    requires |body| ==
      (head[6] as int) * 2097152 + (head[7] as int) * 16384 + (head[8] as int) * 128 + (head[9] as int)
    requires |footer| == if (head[5] / 16) % 2 == 1 then 10 else 0
    ensures var tag := head + body + footer;
      AudioRange(tag + audio) == (|tag|, |tag| + WithoutApe(audio, WithoutId3v1(audio)))
  {
    hide WithoutApe, WithoutId3v1;
    var tag := head + body + footer;
    var buf := tag + audio;
    assert buf[0..3] == head[0..3];
    assert buf[5] == head[5] && buf[6] == head[6] && buf[7] == head[7] && buf[8] == head[8] && buf[9] == head[9];
    assert buf[|tag|..] == audio;
  }

  /** Nothing is taken off the front of a buffer that begins otherwise, nor off one that is shorter than a header. */
  lemma OthersAreKept(buf: seq<Byte>)
    requires |buf| < 10 || buf[0..3] != [0x49, 0x44, 0x33] || buf[5] % 16 != 0 || buf[6] >= 128 || buf[7] >= 128 ||
      buf[8] >= 128 || buf[9] >= 128
    ensures AudioRange(buf) == (0, WithoutApe(buf, WithoutId3v1(buf)))
  {
    hide WithoutApe, WithoutId3v1;
    assert buf[0..] == buf;
  }

  /** mp3dec_skip_id3. */
  method SkipId3(buf: seq<Byte>) returns (lo: nat, hi: nat)
    ensures (lo, hi) == AudioRange(buf)
  {
    lo := Id3v2Size(buf);
    if lo >= |buf| {
      lo := |buf|;
    }
    var size := SkipId3v1(buf[lo..]);
    hi := lo + size;
  }

  // ---------------------------------------------------------------- iteration

  /** All frames from `lo` on, each searched for where the one before it ended. */
  ghost function Frames(b: seq<Byte>, lo: nat): seq<FrameRef>
    decreases |b| - lo
  {
    var f := Find(b, lo, lo);
    if f.None? then [] else [f.value] + Frames(b, f.value.End())
  }

  ghost function PreviousEnd(fs: seq<FrameRef>, lo: nat, j: nat): nat
    requires j <= |fs|
  {
    if j == 0 then lo else fs[j - 1].End()
  }

  ghost predicate FrameFits(b: seq<Byte>, lo: nat, fs: seq<FrameRef>, j: nat)
    requires j < |fs|
  {
    var prev, f := PreviousEnd(fs, lo, j), fs[j];
    prev <= f.offset && f.size > 0 && f.End() <= |b| && HeaderAt(b, f.offset) && Accepted(b, prev, f.offset) == Some(f)
  }

  ghost predicate NoFrameIn(b: seq<Byte>, lo: nat, start: nat, end: nat) {
    forall p :: start <= p < end && HeaderAt(b, p) && InScan(b, p) ==> Accepted(b, lo, p).None?
  }

  lemma {:induction false} FindSkipsNothing(b: seq<Byte>, lo: nat, i: nat)
    ensures NoFrameIn(b, lo, i, if Find(b, lo, i).Some? then Find(b, lo, i).value.offset else |b|)
    decreases |b| - i
  {
    hide Accepted;
    if InScan(b, i) && !(HeaderAt(b, i) && Accepted(b, lo, i).Some?) {
      FindSkipsNothing(b, lo, i + 1);
    }
  }

  /**
   * The frames are disjoint and increasing, lie inside the range and carry the header they were accepted for;
   * in the gaps before, between and after them no header would have been accepted.
   */
  lemma {:induction false} FramesPartition(b: seq<Byte>, lo: nat)
    requires lo <= |b|
    ensures var fs := Frames(b, lo);
      (forall j :: 0 <= j < |fs| ==> FrameFits(b, lo, fs, j)) &&
      (forall j :: 0 <= j < |fs| ==> NoFrameIn(b, PreviousEnd(fs, lo, j), PreviousEnd(fs, lo, j), fs[j].offset)) &&
      NoFrameIn(b, PreviousEnd(fs, lo, |fs|), PreviousEnd(fs, lo, |fs|), |b|)
    decreases |b| - lo
  {
    FindSkipsNothing(b, lo, lo);
    var f := Find(b, lo, lo);
    if f.Some? {
      hide Accepted, NoFrameIn, Find;
      var fs, rest := Frames(b, lo), Frames(b, f.value.End());
      FramesPartition(b, f.value.End());
      forall j | 0 <= j < |fs|
        ensures FrameFits(b, lo, fs, j)
        ensures NoFrameIn(b, PreviousEnd(fs, lo, j), PreviousEnd(fs, lo, j), fs[j].offset)
      {
        if j > 0 {
          assert FrameFits(b, f.value.End(), rest, j - 1);
          assert PreviousEnd(fs, lo, j) == PreviousEnd(rest, f.value.End(), j - 1);
        }
      }
      assert PreviousEnd(fs, lo, |fs|) == PreviousEnd(rest, f.value.End(), |rest|);
    }
  }

  ghost predicate AllFit(b: seq<Byte>, lo: nat, fs: seq<FrameRef>) {
    forall j: nat :: j < |fs| ==> FrameFits(b, lo, fs, j)
  }

  lemma {:induction false} EndsGrow(b: seq<Byte>, lo: nat, fs: seq<FrameRef>, i: nat, k: nat)
    requires AllFit(b, lo, fs) && i <= k <= |fs|
    ensures PreviousEnd(fs, lo, i) <= PreviousEnd(fs, lo, k)
    ensures i < k ==> fs[i].End() <= PreviousEnd(fs, lo, k)
    decreases k
  {
    hide Accepted, HeaderAt;
    if i < k {
      EndsGrow(b, lo, fs, i, k - 1);
      assert FrameFits(b, lo, fs, k - 1);
    }
  }

  /** Byte `p` lies in frame `j`, or in the gap before it; the last gap is what follows the last frame. */
  predicate InFrame(fs: seq<FrameRef>, j: nat, p: nat) { j < |fs| && fs[j].offset <= p < fs[j].End() }

  ghost predicate InGap(b: seq<Byte>, lo: nat, fs: seq<FrameRef>, j: nat, p: nat) {
    j <= |fs| && PreviousEnd(fs, lo, j) <= p < if j < |fs| then fs[j].offset else |b|
  }

  /** Every byte of the range lies in exactly one frame or exactly one gap. */
  lemma EveryByteAccounted(b: seq<Byte>, lo: nat, p: nat) returns (framed: bool, j: nat)
    requires lo <= p < |b|
    ensures var fs := Frames(b, lo);
      (if framed then InFrame(fs, j, p) else InGap(b, lo, fs, j, p)) &&
      (forall k: nat :: InFrame(fs, k, p) ==> framed && k == j) &&
      (forall k: nat :: InGap(b, lo, fs, k, p) ==> !framed && k == j)
  {
    hide Frames, FrameFits, NoFrameIn;
    var fs := Frames(b, lo);
    FramesPartition(b, lo);
    framed, j := PieceOf(b, lo, fs, p, |fs|);
    forall k: nat | InFrame(fs, k, p) ensures framed && k == j { OnePiece(b, lo, fs, p, k, true, j, framed); }
    forall k: nat | InGap(b, lo, fs, k, p) ensures !framed && k == j { OnePiece(b, lo, fs, p, k, false, j, framed); }
  }

  lemma {:induction false} PieceOf(b: seq<Byte>, lo: nat, fs: seq<FrameRef>, p: nat, n: nat)
    returns (framed: bool, j: nat)
    requires lo <= p < |b| && n <= |fs| && (n < |fs| ==> p < PreviousEnd(fs, lo, n + 1))
    ensures if framed then InFrame(fs, j, p) else InGap(b, lo, fs, j, p)
    decreases n
  {
    if n < |fs| && fs[n].offset <= p {
      framed, j := true, n;
    } else if PreviousEnd(fs, lo, n) <= p {
      framed, j := false, n;
    } else {
      framed, j := PieceOf(b, lo, fs, p, n - 1);
    }
  }

  lemma OnePiece(b: seq<Byte>, lo: nat, fs: seq<FrameRef>, p: nat, i: nat, inFrame: bool, j: nat, framed: bool)
    requires AllFit(b, lo, fs)
    requires if inFrame then InFrame(fs, i, p) else InGap(b, lo, fs, i, p)
    requires if framed then InFrame(fs, j, p) else InGap(b, lo, fs, j, p)
    ensures i == j && inFrame == framed
  {
    PieceLiesIn(b, lo, fs, p, i, inFrame);
    PieceLiesIn(b, lo, fs, p, j, framed);
    hide AllFit, PreviousEnd;
    if i < j { EndsGrow(b, lo, fs, i, j); } else if j < i { EndsGrow(b, lo, fs, j, i); }
  }

  lemma PieceLiesIn(b: seq<Byte>, lo: nat, fs: seq<FrameRef>, p: nat, j: nat, framed: bool)
    requires AllFit(b, lo, fs)
    requires if framed then InFrame(fs, j, p) else InGap(b, lo, fs, j, p)
    ensures PreviousEnd(fs, lo, j) <= p && (j < |fs| ==> p < fs[j].End() && (framed <==> fs[j].offset <= p))
  {
    hide Accepted, HeaderAt;
    assert j < |fs| ==> FrameFits(b, lo, fs, j);
  }

  /** The bytes in the first `n` frames, and those in the gaps before them. */
  ghost function FrameBytesIn(fs: seq<FrameRef>, n: nat): nat
    requires n <= |fs|
  {
    if n == 0 then 0 else FrameBytesIn(fs, n - 1) + fs[n - 1].size
  }

  ghost function GapBytesIn(fs: seq<FrameRef>, lo: nat, n: nat): int
    requires n <= |fs|
  {
    if n == 0 then 0 else GapBytesIn(fs, lo, n - 1) + (fs[n - 1].offset - PreviousEnd(fs, lo, n - 1))
  }

  /** Frames, gaps and the rest add up to the range, and none of them is negative. */
  lemma BytesAddUp(b: seq<Byte>, lo: nat)
    requires lo <= |b|
    ensures var fs := Frames(b, lo);
      var (framed, gaps, rest) := (FrameBytesIn(fs, |fs|), GapBytesIn(fs, lo, |fs|), |b| - PreviousEnd(fs, lo, |fs|));
      framed + gaps + rest == |b| - lo && gaps >= 0 && rest >= 0
  {
    hide Frames, FrameFits, NoFrameIn, Accepted, HeaderAt;
    var fs := Frames(b, lo);
    FramesPartition(b, lo);
    BytesUpTo(b, lo, fs, |fs|);
    if |fs| > 0 { LastFits(b, lo, fs); }
  }

  lemma LastFits(b: seq<Byte>, lo: nat, fs: seq<FrameRef>)
    requires |fs| > 0 && AllFit(b, lo, fs)
    ensures PreviousEnd(fs, lo, |fs|) <= |b|
  {
    hide Accepted, HeaderAt;
    assert FrameFits(b, lo, fs, |fs| - 1);
  }

  lemma {:induction false} BytesUpTo(b: seq<Byte>, lo: nat, fs: seq<FrameRef>, n: nat)
    requires n <= |fs| && AllFit(b, lo, fs)
    ensures FrameBytesIn(fs, n) + GapBytesIn(fs, lo, n) == PreviousEnd(fs, lo, n) - lo && GapBytesIn(fs, lo, n) >= 0
  {
    hide Accepted, HeaderAt;
    if n > 0 {
      BytesUpTo(b, lo, fs, n - 1);
      assert FrameFits(b, lo, fs, n - 1);
    }
  }

  /** The callback has returned 0 on each of the first `n` calls. */
  ghost predicate Continues(callback: seq<FrameRef> -> int, calls: seq<FrameRef>, n: nat)
    requires n <= |calls|
  {
    forall m :: 1 <= m <= n ==> callback(calls[..m]) == 0
  }

  lemma OneMoreCall(callback: seq<FrameRef> -> int, calls: seq<FrameRef>, f: FrameRef)
    requires Continues(callback, calls, |calls|)
    ensures Continues(callback, calls + [f], |calls|)
    ensures callback(calls + [f]) == 0 ==> Continues(callback, calls + [f], |calls| + 1)
  {
    var all := calls + [f];
    assert all[..|all|] == all;
    assert forall m :: 1 <= m <= |calls| ==> all[..m] == calls[..m];
  }

  /**
   * mp3dec_iterate_buf. The callback is any function of the frames it has been called with; `calls` are those frames.
   * It is called for each frame in turn until it returns something else than 0.
   */
  method IterateBuf(buf: seq<Byte>, callback: seq<FrameRef> -> int) returns (r: int, calls: seq<FrameRef>)
    ensures var (lo, hi) := AudioRange(buf);
      calls <= Frames(buf[..hi], lo) && (r == 0 ==> calls == Frames(buf[..hi], lo))
    ensures r == 0 ==> Continues(callback, calls, |calls|)
    ensures r != 0 ==> calls != [] && callback(calls) == r && Continues(callback, calls, |calls| - 1)
  {
    hide Find, Accepted, HeaderAt, Frames, AudioRange, Continues, CalledSoFar;
    var lo, hi := SkipId3(buf);
    ghost var start := lo;
    calls := [];
    NothingYet(callback);
    if lo == hi {
      NoFrames(buf[..hi], lo);
      return 0, [];
    }
    var b := buf[..hi];
    NoneCalled(b, lo);
    while true
      invariant lo <= |b|
      invariant CalledSoFar(b, start, calls, lo)
      invariant Continues(callback, calls, |calls|)
      decreases |b| - lo
    {
      var skip, freeFormat, size := FindFrame(b, lo);
      if skip > 0 && size == 0 {
        NothingMore(b, start, calls, lo, lo + skip);
        lo := lo + skip;
        continue;
      }
      if size == 0 {
        AllCalled(b, start, calls, lo);
        return 0, calls;
      }
      var f := FrameRef(lo + skip, size, freeFormat);
      OneMoreCall(callback, calls, f);
      OneMoreFound(b, start, calls, lo, f);
      calls := calls + [f];
      r := callback(calls);
      if r != 0 {
        SomeCalled(b, start, calls, f.End());
        return r, calls;
      }
      lo := f.End();
    }
  }

  /** The frames from `start` on are those called for and those still to be found. */
  ghost predicate CalledSoFar(b: seq<Byte>, start: nat, calls: seq<FrameRef>, lo: nat) {
    Frames(b, start) == calls + Frames(b, lo)
  }

  lemma NoneCalled(b: seq<Byte>, start: nat)
    ensures CalledSoFar(b, start, [], start)
  {
    hide Frames;
  }

  lemma OneMoreFound(b: seq<Byte>, start: nat, calls: seq<FrameRef>, lo: nat, f: FrameRef)
    requires CalledSoFar(b, start, calls, lo) && Find(b, lo, lo) == Some(f)
    ensures CalledSoFar(b, start, calls + [f], f.End())
  {
    hide Frames, Find;
    FramesStep(b, lo);
    Regroup(calls, f, Frames(b, f.End()));
  }

  lemma NothingMore(b: seq<Byte>, start: nat, calls: seq<FrameRef>, lo: nat, end: nat)
    requires CalledSoFar(b, start, calls, lo) && Find(b, lo, lo).None? && end >= |b|
    ensures CalledSoFar(b, start, calls, end)
  {
    hide Frames, Find;
    FramesStep(b, lo);
    NoFrames(b, end);
  }

  lemma AllCalled(b: seq<Byte>, start: nat, calls: seq<FrameRef>, lo: nat)
    requires CalledSoFar(b, start, calls, lo) && Find(b, lo, lo).None?
    ensures calls == Frames(b, start)
  {
    hide Frames, Find;
    FramesStep(b, lo);
  }

  lemma SomeCalled(b: seq<Byte>, start: nat, calls: seq<FrameRef>, lo: nat)
    requires CalledSoFar(b, start, calls, lo)
    ensures calls <= Frames(b, start)
  {
    hide Frames;
  }

  lemma FramesStep(b: seq<Byte>, lo: nat)
    ensures Frames(b, lo) == if Find(b, lo, lo).None? then []
                             else [Find(b, lo, lo).value] + Frames(b, Find(b, lo, lo).value.End())
  {
    hide Find;
  }

  lemma NothingYet(callback: seq<FrameRef> -> int)
    ensures Continues(callback, [], 0)
  {}

  lemma Regroup<T>(s: seq<T>, x: T, t: seq<T>)
    ensures s + ([x] + t) == (s + [x]) + t
  {}

  lemma NoFrames(b: seq<Byte>, lo: nat)
    requires lo >= |b|
    ensures Frames(b, lo) == []
  {}
}
