/** Loading a whole buffer: the Xing/Info tag and the decode loop of mp3dec_load_buf. */
module Load {
  import opened Bits
  import opened Header
  import opened SideInfo
  import opened Sync
  import opened Reservoir
  import opened Decoder
  import opened Player
  import opened Wrappers

  const MINIMP3_MAX_SAMPLES_PER_FRAME: nat := 1152 * 2
  const MP3D_E_DECODE: int := -5

  // ---------------------------------------------------------------- the tag frame

  const XING: seq<Byte> := [0x58, 0x69, 0x6E, 0x67]
  const INFO: seq<Byte> := [0x49, 0x6E, 0x66, 0x6F]

  /** Flags of the tag. */
  predicate HasFrames(frame: seq<Byte>, off: nat) requires off + 8 <= |frame| { frame[off + 7] % 2 == 1 }

  predicate HasBytes(frame: seq<Byte>, off: nat) requires off + 8 <= |frame| { (frame[off + 7] / 2) % 2 == 1 }

  predicate HasToc(frame: seq<Byte>, off: nat) requires off + 8 <= |frame| { (frame[off + 7] / 4) % 2 == 1 }

  predicate HasScale(frame: seq<Byte>, off: nat) requires off + 8 <= |frame| { (frame[off + 7] / 8) % 2 == 1 }

  /** A tag text with its flags lies at `off`. */
  predicate TagAt(frame: seq<Byte>, off: nat) {
    off + 8 <= |frame| && (TextAt(frame, off, XING) || TextAt(frame, off, INFO))
  }

  /** Where the encoder extension lies: after the fields that the flags announce. */
  function ExtensionAt(frame: seq<Byte>, off: nat): nat
    requires off + 8 <= |frame|
  {
    off + 12 + (if HasBytes(frame, off) then 4 else 0) + (if HasToc(frame, off) then 100 else 0) +
    (if HasScale(frame, off) then 4 else 0)
  }

  /** A tag with a frame count whose announced fields, and extension if there is one, fit the frame. */
  predicate CompleteTag(frame: seq<Byte>, off: nat) {
    TagAt(frame, off) && HasFrames(frame, off) &&
    var ext := ExtensionAt(frame, off);
    ext < |frame| && (frame[ext] != 0 ==> ext + 35 < |frame|)
  }

  /** 12 bits at byte `i`, and the 12 bits after them. */
  function High12(b: seq<Byte>, i: nat): nat requires i + 1 < |b| { Join12(b[i], b[i + 1] / 16, 16) }

  function Low12(b: seq<Byte>, i: nat): nat requires i + 1 < |b| { Join12(b[i] % 16, b[i + 1], 256) }

  function Join12(hi: nat, lo: nat, weight: nat): nat { hi * weight + lo }

  /**
   * What a frame announces: nothing, a tag without a frame count, or the frame count with encoder delay and padding.
   */
  datatype Tag = NoTag | NoCount | Announced(frames: nat, delay: nat, padding: int)

  function TagIn(frame: seq<Byte>, off: nat): Tag {
    if !TagAt(frame, off) then NoTag
    else if !HasFrames(frame, off) then NoCount
    else if !CompleteTag(frame, off) then NoTag
    else
      var ext, n := ExtensionAt(frame, off),
        BigEndian(frame[off + 8], frame[off + 9], frame[off + 10], frame[off + 11]);
      if frame[ext] == 0 then Announced(n, 0, 0)
      else Announced(n, High12(frame, ext + 21) + 529, Low12(frame, ext + 22) - 529)
  }

  /** The tag lies after the header, the checksum and the side info. */
  ghost function TagOf(b: seq<Byte>, f: FrameRef): Tag
    requires f.End() <= |b| && f.offset + HDR_SIZE <= |b|
  {
    var s := SideBlock(b, f);
    if f.size < 12 || !s.Ok() then NoTag else TagIn(b[f.offset..f.End()], HDR_SIZE + s.End() / 8)
  }

  /** What mp3dec_check_vbrtag returns for a tag. */
  ghost predicate Reports(tag: Tag, ret: int, frames: nat, delay: nat, padding: int) {
    match tag
    case NoTag => ret == 0
    case NoCount => ret == -1
    case Announced(n, d, p) => ret == 1 && frames == n && delay == d && padding == p
  }

  /** mp3dec_check_vbrtag; every read lies inside the frame. */
  method CheckVbrTag(b: seq<Byte>, f: FrameRef, gr: array<GrInfo>)
    returns (ret: int, frames: nat, delay: nat, padding: int)
    requires f.End() <= |b| && f.offset + HDR_SIZE <= |b| && gr.Length >= 4
    modifies gr
    ensures Reports(TagOf(b, f), ret, frames, delay, padding)
  {
    hide Field, Block.Ok, Stored, Header.IsCrc, TagIn;
    ret, frames, delay, padding := 0, 0, 0, 0;
    if f.size < 12 {
      return;
    }
    var bs := new BitReader(Body(b, f), f.size - HDR_SIZE);
    var h := At(b, f.offset);
    if h.IsCrc() {
      var crc := bs.GetBits(16);
    }
    var r, s := ReadSideInfo(bs, gr, h);
    if r < 0 {
      return;
    }
    SideInfoBytes(s);
    ret, frames, delay, padding := ReadTag(b[f.offset..f.End()], HDR_SIZE + bs.pos / 8);
  }

  /** The part of mp3dec_check_vbrtag after the side info. */
  method ReadTag(frame: seq<Byte>, start: nat) returns (ret: int, frames: nat, delay: nat, padding: int)
    ensures Reports(TagIn(frame, start), ret, frames, delay, padding)
  {
    hide TextAt;
    ret, frames, delay, padding := 0, 0, 0, 0;
    var off := start;
    if off > |frame| || |frame| - off < 8 {
      return;
    }
    if !TextAt(frame, off, XING) && !TextAt(frame, off, INFO) {
      return;
    }
    if !HasFrames(frame, start) {
      ret := -1;
      return;
    }
    off := off + 8;
    if |frame| - off < 4 {
      return;
    }
    frames := BigEndian(frame[off], frame[off + 1], frame[off + 2], frame[off + 3]);
    off := off + 4;
    if HasBytes(frame, start) {
      if |frame| - off < 4 {
        return;
      }
      off := off + 4;
    }
    if HasToc(frame, start) {
      if |frame| - off < 100 {
        return;
      }
      off := off + 100;
    }
    if HasScale(frame, start) {
      if |frame| - off < 4 {
        return;
      }
      off := off + 4;
    }
    if |frame| - off < 1 {
      return;
    }
    if frame[off] != 0 {
      if |frame| - off <= 35 {
        return;
      }
      off := off + 21;
      delay := High12(frame, off) + (528 + 1);
      padding := Low12(frame, off + 1) - (528 + 1);
    }
    ret := 1;
  }

  // ---------------------------------------------------------------- tags as they are written

  /** A tag text at `at`, with its flags in the eighth byte. */
  predicate TextWritten(frame: seq<Byte>, at: nat) {
    at + 8 <= |frame| &&
    (frame[at..at + 4] == [0x58, 0x69, 0x6E, 0x67] || frame[at..at + 4] == [0x49, 0x6E, 0x66, 0x6F])
  }

  /**
   * A frame count on four bytes behind text and flags, where the flags have announced it, and then four, 100 and four
   * bytes for each of the next three flags; they end at `ext`.
   */
  predicate CountWritten(frame: seq<Byte>, at: nat, n: nat, ext: nat) {
    TextWritten(frame, at) && frame[at + 7] % 2 == 1 && ext < |frame| &&
    ext == at + 12 + (if (frame[at + 7] / 2) % 2 == 1 then 4 else 0) +
             (if (frame[at + 7] / 4) % 2 == 1 then 100 else 0) + (if (frame[at + 7] / 8) % 2 == 1 then 4 else 0) &&
    frame[at + 8] == n / 0x100_0000 && frame[at + 9] == n / 0x1_0000 % 256 && frame[at + 10] == n / 256 % 256 &&
    frame[at + 11] == n % 256
  }

  /** Delay and padding, on twelve bits each, 21 bytes behind the start of an encoder's extension. */
  predicate DelaysWritten(frame: seq<Byte>, ext: nat, delay: nat, padding: nat) {
    delay < 4096 && padding < 4096 && ext + 35 < |frame| && frame[ext] != 0 && frame[ext + 21] == delay / 16 &&
    frame[ext + 22] == delay % 16 * 16 + padding / 256 && frame[ext + 23] == padding % 256
  }

  lemma TagIsRead(frame: seq<Byte>, at: nat, n: nat, ext: nat, delay: nat, padding: nat)
    requires CountWritten(frame, at, n, ext)
    ensures frame[ext] == 0 ==> TagIn(frame, at) == Announced(n, 0, 0)
    ensures DelaysWritten(frame, ext, delay, padding) ==>
              TagIn(frame, at) == Announced(n, delay + 529, padding - 529)
  {
    hide BigEndian, Join12;
    FourBytes(n);
    if DelaysWritten(frame, ext, delay, padding) { TwelveBits(delay, padding); }
  }

  lemma FourBytes(n: nat)
    ensures BigEndian(n / 0x100_0000, n / 0x1_0000 % 256, n / 256 % 256, n % 256) == n
  {
    assert n / 0x1_0000 == n / 256 / 256 && n / 0x100_0000 == n / 256 / 256 / 256;
  }

  /**
   * A frame holds no tag if and only if there is no text, or a frame count is announced and the fields that the flags
   * announce do not fit with a byte behind them, or that byte begins an extension that does not fit.
   */
  lemma NoTagIff(frame: seq<Byte>, at: nat)
    ensures TagIn(frame, at) == NoTag <==>
      !TextWritten(frame, at) ||
      (frame[at + 7] % 2 == 1 &&
       var ext := at + 12 + (if (frame[at + 7] / 2) % 2 == 1 then 4 else 0) +
                  (if (frame[at + 7] / 4) % 2 == 1 then 100 else 0) + (if (frame[at + 7] / 8) % 2 == 1 then 4 else 0);
       ext >= |frame| || (frame[ext] != 0 && ext + 35 >= |frame|))
  {
    hide BigEndian, High12, Low12;
  }

  lemma TwelveBits(delay: nat, padding: nat)
    requires delay < 4096 && padding < 4096
    ensures var middle := delay % 16 * 16 + padding / 256;
      Join12(delay / 16, middle / 16, 16) == delay && Join12(middle % 16, padding % 256, 256) == padding
  {}

  /** Where the tag of a frame lies: behind its header, its checksum if it has one, and its side info. */
  function TagPlace(b: seq<Byte>, f: FrameRef): nat
    requires f.offset + HDR_SIZE <= |b|
  {
    var (mpeg1, mono) := ((b[f.offset + 1] / 8) % 2 == 1, b[f.offset + 3] / 64 == 3);
    4 + (if b[f.offset + 1] % 2 == 0 then 2 else 0) +
    (if mpeg1 then if mono then 17 else 32 else if mono then 9 else 17)
  }

  lemma TagOfIs(b: seq<Byte>, f: FrameRef)
    requires f.End() <= |b| && f.offset + HDR_SIZE <= |b| && f.size >= 12 && SideBlock(b, f).Ok()
    ensures TagOf(b, f) == TagIn(b[f.offset..f.End()], TagPlace(b, f))
  {
    hide Block.Ok, TagIn, Field;
    SideInfoBytes(SideBlock(b, f));
  }

  // ---------------------------------------------------------------- the decode loop

  /** No call gives more samples than a frame can hold, and none is given where nothing is left. */
  ghost predicate Bounded<S(!new)>(src: Source<S>) {
    src.MakesProgress() &&
    (forall st, off {:trigger src.decode(st, off)} :: |src.decode(st, off).pcm| <= MINIMP3_MAX_SAMPLES_PER_FRAME) &&
    (forall st {:trigger src.decode(st, |src.b|)} ::
       src.decode(st, |src.b|).bytes == 0 && src.decode(st, |src.b|).pcm == [])
  }

  /**
   * The frames decoded on the way to the end or to the first frame of another kind, their bit rates, and which it
   * was.
   */
  datatype Track = Track(frames: seq<seq<Sample>>, rates: seq<nat>, ok: bool)

  ghost function Decoding<S(!new)>(src: Source<S>, kind: Info, st: S, off: nat): Track
    requires src.MakesProgress()
    decreases |src.b| - off
  {
    if off >= |src.b| then Track([], [], true) else
    var d := src.decode(st, off);
    if d.info.None? then Track([], [], true)
    else if d.pcm == [] then Decoding(src, kind, d.state, off + d.bytes)
    else if d.info.value != kind then Track([], [], false)
    else
      var rest := Decoding(src, kind, d.state, off + d.bytes);
      Track([d.pcm] + rest.frames, [d.kbps] + rest.rates, rest.ok)
  }

  /** One frame after the other. */
  function Joined(frames: seq<seq<Sample>>): seq<Sample> {
    if frames == [] then [] else frames[0] + Joined(frames[1..])
  }

  function Sum(rates: seq<nat>): nat { if rates == [] then 0 else rates[0] + Sum(rates[1..]) }

  function Average(rates: seq<nat>): nat { if rates == [] then 0 else Sum(rates) / |rates| }

  /** One call of the loop: either nothing is kept, or a frame, or the loop ends. */
  lemma DecodingStep<S(!new)>(src: Source<S>, kind: Info, st: S, off: nat)
    requires Bounded(src) && off <= |src.b|
    ensures var d, all := src.decode(st, off), Decoding(src, kind, st, off);
      off + d.bytes <= |src.b| &&
      (d.bytes == 0 ==> all == Track([], [], true) && d.pcm == [] && off == |src.b|) &&
      (d.bytes > 0 && d.pcm == [] ==> all == Decoding(src, kind, d.state, off + d.bytes)) &&
      (d.pcm != [] ==> d.bytes > 0 && d.info.Some?) &&
      (d.pcm != [] && d.info.value != kind ==> all == Track([], [], false)) &&
      (d.pcm != [] && d.info.value == kind ==>
         var rest := Decoding(src, kind, d.state, off + d.bytes);
         all == Track([d.pcm] + rest.frames, [d.kbps] + rest.rates, rest.ok))
  {}

  /** A frame of which the first samples are dropped, and the frames after it. */
  lemma DropFromFrames(pcm: seq<Sample>, rest: seq<seq<Sample>>, skip: nat)
    ensures var n := Min(|pcm|, skip);
      DropOf(Joined([pcm] + rest), skip) == pcm[n..] + DropOf(Joined(rest), skip - n)
  {
    assert ([pcm] + rest)[1..] == rest;
  }

  lemma SumOfRates(kbps: nat, rest: seq<nat>)
    ensures Sum([kbps] + rest) == kbps + Sum(rest)
  {
    assert ([kbps] + rest)[1..] == rest;
  }

  lemma NothingJoined(skip: nat)
    ensures DropOf(Joined([]), skip) == [] && Sum([]) == 0
  {}

  /** What is kept of all frames is kept already or still to come, and so are the bit rates. */
  ghost predicate Remains(all: Track, skip: nat, contents: seq<Sample>, total: nat, frames: nat, rest: Track,
                          toSkip: nat) {
    DropOf(Joined(all.frames), skip) == contents + DropOf(Joined(rest.frames), toSkip) && all.ok == rest.ok &&
    Sum(all.rates) == total + Sum(rest.rates) && |all.rates| == frames + |rest.rates|
  }

  lemma AllRemain(all: Track, skip: nat)
    ensures Remains(all, skip, [], 0, 0, all, skip)
  {
    hide Joined, DropOf;
  }

  lemma NoneRemain(all: Track, skip: nat, contents: seq<Sample>, total: nat, frames: nat, ok: bool, toSkip: nat)
    requires Remains(all, skip, contents, total, frames, Track([], [], ok), toSkip)
    ensures contents == DropOf(Joined(all.frames), skip) && all.ok == ok
    ensures Average(all.rates) == if frames > 0 then total / frames else 0
  {
    NothingJoined(toSkip);
  }

  lemma OneFrameLess(all: Track, skip: nat, contents: seq<Sample>, total: nat, frames: nat, toSkip: nat,
                     pcm: seq<Sample>, kbps: nat, rest: Track)
    requires Remains(all, skip, contents, total, frames,
                     Track([pcm] + rest.frames, [kbps] + rest.rates, rest.ok), toSkip)
    ensures var n := Min(|pcm|, toSkip);
      Remains(all, skip, contents + pcm[n..], total + kbps, frames + 1, rest, toSkip - n)
  {
    hide Joined, DropOf, Sum;
    DropFromFrames(pcm, rest.frames, toSkip);
    SumOfRates(kbps, rest.rates);
    var n := Min(|pcm|, toSkip);
    var later := DropOf(Joined(rest.frames), toSkip - n);
    assert contents + (pcm[n..] + later) == (contents + pcm[n..]) + later;
  }

  datatype Loading = Loading(samples: seq<Sample>, kind: Info, kbps: nat)

  /** mp3dec_file_info_t; `kind` holds its channels, rate and layer. */
  class FileInfo {
    var buffer: array<Sample>
    var samples: nat
    const kind: Info
    var avgBitrateKbps: nat

    ghost predicate Valid()
      reads this
    {
      samples <= buffer.Length
    }

    ghost function Contents(): seq<Sample>
      requires Valid()
      reads this, buffer
    {
      buffer[..samples]
    }

    constructor (capacity: nat, kind: Info)
      ensures Valid() && Contents() == [] && fresh(buffer) && buffer.Length == capacity
      ensures this.kind == kind && avgBitrateKbps == 0
    {
      buffer := new Sample[capacity](_ => 0);
      samples := 0;
      this.kind, avgBitrateKbps := kind, 0;
    }

    /** What a load has found. */
    ghost predicate Is(l: Loading)
      requires Valid()
      reads this, buffer
    {
      Contents() == l.samples && kind == l.kind && avgBitrateKbps == l.kbps
    }

    /** realloc */
    method Resize(capacity: nat)
      requires Valid() && samples <= capacity
      modifies this`buffer
      ensures Valid() && fresh(buffer) && buffer.Length == capacity && Contents() == old(Contents())
    {
      var old_, n := buffer, samples;
      buffer := new Sample[capacity](i requires 0 <= i reads old_ => if i < n && i < old_.Length then old_[i] else 0);
    }

    /** Writes the samples of a frame behind those kept, of which `skip` are dropped by moving the rest to the front. */
    method Append(pcm: seq<Sample>, skip: nat)
      requires Valid() && skip <= |pcm| && samples + |pcm| <= buffer.Length && (skip > 0 ==> samples == 0)
      modifies this`samples, buffer
      ensures Valid() && buffer == old(buffer) && Contents() == old(Contents()) + pcm[skip..]
    {
      forall k | 0 <= k < |pcm| {
        buffer[samples + k] := pcm[k];
      }
      var kept := |pcm| - skip;
      if skip > 0 {
        forall k | 0 <= k < kept {
          buffer[k] := buffer[skip + k];
        }
      }
      samples := samples + kept;
    }
  }

  /** The frames that decode, joined, without the first `skip` samples and cut to a known length. */
  ghost function LoadedBy<S(!new)>(src: Source<S>, kind: Info, start: nat, skip: nat, detected: nat): Loading
    requires src.MakesProgress()
  {
    var all := Decoding(src, kind, src.initial, start);
    var kept := DropOf(Joined(all.frames), skip);
    Loading(if detected > 0 then FirstOf(kept, detected) else kept, kind, Average(all.rates))
  }

  /**
   * The decode loop of mp3dec_load_buf. The buffer is sized by a guess; one doubling always makes room for a whole
   * frame. Samples are dropped only while none are kept, which is what makes the move to the front of the buffer
   * right.
   */
  method DecodeAll<S(!new)>(src: Source<S>, kind: Info, start: nat, skip: nat, detected: nat, guess: nat)
    returns (ret: int, info: FileInfo)
    requires Bounded(src) && start <= |src.b|
    ensures fresh(info) && fresh(info.buffer) && info.Valid()
    ensures info.Is(LoadedBy(src, kind, start, skip, detected))
    ensures ret == if Decoding(src, kind, src.initial, start).ok then 0 else MP3D_E_DECODE
  {
    hide Decoding, Source.MakesProgress, Joined, Remains, DropOf, Average;
    var capacity := MINIMP3_MAX_SAMPLES_PER_FRAME + (if detected > 0 then detected else guess);
    info := new FileInfo(capacity, kind);
    ret := 0;
    var st, off: nat, toSkip: nat := src.initial, start, skip;
    var total: nat, frames: nat := 0, 0;
    ghost var all := Decoding(src, kind, src.initial, start);
    ghost var rest := all;
    AllRemain(all, skip);
    var frameBytes := 1;
    while frameBytes > 0
      invariant info.Valid() && fresh(info) && fresh(info.buffer) && info.buffer.Length == capacity
      invariant capacity >= MINIMP3_MAX_SAMPLES_PER_FRAME && info.kind == kind && info.avgBitrateKbps == 0
      invariant off <= |src.b| && ret == 0
      invariant toSkip > 0 ==> info.samples == 0
      invariant Remains(all, skip, info.Contents(), total, frames, rest, toSkip)
      invariant rest == if frameBytes > 0 then Decoding(src, kind, st, off) else Track([], [], true)
      decreases |src.b| - off, frameBytes
    {
      if capacity - info.samples < MINIMP3_MAX_SAMPLES_PER_FRAME {
        capacity := capacity * 2;
        info.Resize(capacity);
      }
      assert capacity - info.samples >= MINIMP3_MAX_SAMPLES_PER_FRAME;
      DecodingStep(src, kind, st, off);
      var d := src.decode(st, off);
      st, frameBytes := d.state, d.bytes;
      if |d.pcm| > 0 {
        if d.info.value != kind {
          ret := MP3D_E_DECODE;
          break;
        }
        rest := Decoding(src, kind, st, off + d.bytes);
        OneFrameLess(all, skip, info.Contents(), total, frames, toSkip, d.pcm, d.kbps, rest);
        var n := 0;
        if toSkip > 0 {
          n := Min(|d.pcm|, toSkip);
          toSkip := toSkip - n;
        }
        info.Append(d.pcm, n);
        total := total + d.kbps;
        frames := frames + 1;
      }
      off := off + d.bytes;
    }
    NoneRemain(all, skip, info.Contents(), total, frames, ret == 0, toSkip);
    if detected > 0 && info.samples > detected {
      info.samples := detected;
    }
    info.Resize(info.samples);
    if frames > 0 {
      info.avgBitrateKbps := total / frames;
    }
  }

  // ---------------------------------------------------------------- the whole load

  /** The stream length announced by a tag, without the encoder delay and padding. */
  function AnnouncedLength(samples: nat, frames: nat, skip: nat, padding: int): nat {
    var all := TimesFrames(samples, frames);
    var later := if all >= skip then all - skip else all;
    if padding > 0 && later >= padding then later - padding else later
  }

  /** Delay, length and padding make up all samples announced exactly when delay and padding fit into them. */
  lemma AnnouncedAddsUp(samples: nat, frames: nat, skip: nat, padding: int)
    ensures var cut := if padding > 0 then padding else 0;
      (skip + AnnouncedLength(samples, frames, skip, padding) + cut == TimesFrames(samples, frames)) <==>
      (skip + cut <= TimesFrames(samples, frames))
  {
    hide TimesFrames;
  }

  /** How a file is loaded: where decoding starts, the samples to drop and the length, if a tag announces one. */
  datatype Plan = Plan(start: nat, skip: nat, length: Option<nat>)

  /** All channels together. */
  function AllChannels(n: nat, h: Header): nat { n * h.Channels() }

  function PlanWith(h: Header, f: FrameRef, tag: Tag): Plan {
    match tag
    case NoTag => Plan(f.offset, 0, None)
    case NoCount => Plan(f.End(), 0, None)
    case Announced(frames, delay, padding) =>
      var skip, count := AllChannels(delay, h), AllChannels(h.FrameSamples(), h);
      Plan(f.End(), skip, Some(AnnouncedLength(count, frames, skip, padding * h.Channels())))
  }

  ghost function PlanFor(b: seq<Byte>, f: FrameRef): (p: Plan)
    requires f.End() <= |b| && HeaderAt(b, f.offset)
    ensures p.start <= |b|
  {
    hide TagOf;
    PlanWith(At(b, f.offset), f, if At(b, f.offset).Layer() != 3 then NoTag else TagOf(b, f))
  }

  /** A Layer III frame whose side info is legal, and its bytes. */
  ghost predicate MayHoldTag(b: seq<Byte>, f: FrameRef, frame: seq<Byte>) {
    f.End() <= |b| && HeaderAt(b, f.offset) && (b[f.offset + 1] / 2) % 4 == 1 && SideBlock(b, f).Ok() &&
    frame == b[f.offset..f.End()]
  }

  /** A Layer III frame with zeros for its side info may hold a tag. */
  lemma SilenceMayHoldTag(b: seq<Byte>, f: FrameRef, frame: seq<Byte>)
    requires f.End() <= |b| && HeaderAt(b, f.offset) && (b[f.offset + 1] / 2) % 4 == 1 && frame == b[f.offset..f.End()]
    requires TagPlace(b, f) <= f.size
    requires forall k: nat :: (if b[f.offset + 1] % 2 == 0 then 6 else 4) <= k < TagPlace(b, f) ==> frame[k] == 0
    ensures MayHoldTag(b, f, frame)
  {
    hide Block.Ok, BitAt, Header.Valid;
    var s := SideBlock(b, f);
    SideInfoBytes(s);
    forall p: nat | s.start <= p < s.End() ensures BitAt(s.buf, p) == 0 {
      assert s.buf[p / 8] == frame[4 + p / 8];
      ZeroByte(s.buf, p);
    }
    SilenceIsLegal(s);
  }

  lemma ZeroByte(buf: seq<Byte>, p: nat)
    requires p < 8 * |buf| && buf[p / 8] == 0
    ensures BitAt(buf, p) == 0
  {
    ZeroShifts(7 - p % 8);
  }

  /** A tag without a frame count is skipped, and announces nothing. */
  lemma UncountedIsSkipped(b: seq<Byte>, f: FrameRef, frame: seq<Byte>)
    requires MayHoldTag(b, f, frame) && TextWritten(frame, TagPlace(b, f)) && frame[TagPlace(b, f) + 7] % 2 == 0
    ensures PlanFor(b, f) == Plan(f.End(), 0, None)
  {
    hide Block.Ok, TagOf, SideBlock, Header.Valid;
    TagOfIs(b, f);
  }

  /** The samples of a Layer III frame, with one or two channels, and of `n` of them. */
  function SamplesOf(b: seq<Byte>, f: FrameRef): nat
    requires f.offset + HDR_SIZE <= |b|
  {
    var samples := if (b[f.offset + 1] / 8) % 2 == 1 then 1152 else 576;
    if b[f.offset + 3] / 64 == 3 then samples else 2 * samples
  }

  function AllSamples(b: seq<Byte>, f: FrameRef, n: nat): nat
    requires f.offset + HDR_SIZE <= |b|
  {
    n * SamplesOf(b, f)
  }

  lemma AllSamplesAre(b: seq<Byte>, f: FrameRef, n: nat)
    requires f.offset + HDR_SIZE <= |b| && (b[f.offset + 1] / 2) % 4 == 1
    ensures var h := At(b, f.offset); TimesFrames(AllChannels(h.FrameSamples(), h), n) == AllSamples(b, f, n)
  {
    hide SamplesOf, Header.FrameSamples, AllChannels;
    SamplesOfIs(b, f);
  }

  lemma SamplesOfIs(b: seq<Byte>, f: FrameRef)
    requires f.offset + HDR_SIZE <= |b| && (b[f.offset + 1] / 2) % 4 == 1
    ensures var h := At(b, f.offset); AllChannels(h.FrameSamples(), h) == SamplesOf(b, f)
  {}

  lemma NothingCut(samples: nat, frames: nat)
    ensures AnnouncedLength(samples, frames, 0, 0) == TimesFrames(samples, frames)
  {
    hide TimesFrames;
  }

  /** A tag with a frame count and without an extension: all the samples of its frames, from the next frame on. */
  lemma PlainTagIsPlanned(b: seq<Byte>, f: FrameRef, frame: seq<Byte>, n: nat, ext: nat)
    requires MayHoldTag(b, f, frame) && CountWritten(frame, TagPlace(b, f), n, ext) && frame[ext] == 0
    ensures PlanFor(b, f) == Plan(f.End(), 0, Some(AllSamples(b, f, n)))
  {
    hide Block.Ok, TagOf, SideBlock, Header.Valid, TagIn, CountWritten, DelaysWritten, AnnouncedLength, AllSamples,
      TimesFrames, Header.FrameSamples, TagPlace;
    CountFits(frame, TagPlace(b, f), n, ext);
    TagOfIs(b, f);
    TagIsRead(frame, TagPlace(b, f), n, ext, 0, 0);
    AllSamplesAre(b, f, n);
    var h := At(b, f.offset);
    NothingCut(AllChannels(h.FrameSamples(), h), n);
  }

  lemma CountFits(frame: seq<Byte>, at: nat, n: nat, ext: nat)
    requires CountWritten(frame, at, n, ext)
    ensures |frame| >= 12
  {}

  /**
   * The round trip of a tag with an extension: the delay written, with the 529 samples of the decoder, is skipped in
   * each channel; and as long as they fit, skip, length and the padding written beyond those 529 samples make up all
   * the samples of the frames announced.
   */
  lemma TagIsPlanned(b: seq<Byte>, f: FrameRef, frame: seq<Byte>, n: nat, ext: nat, delay: nat, padding: nat)
    requires MayHoldTag(b, f, frame) && CountWritten(frame, TagPlace(b, f), n, ext)
    requires DelaysWritten(frame, ext, delay, padding)
    ensures var channels := if b[f.offset + 3] / 64 == 3 then 1 else 2;
      var (skip, cut) := ((delay + 529) * channels, if padding > 529 then (padding - 529) * channels else 0);
      PlanFor(b, f).start == f.End() && PlanFor(b, f).skip == skip && PlanFor(b, f).length.Some? &&
      (skip + PlanFor(b, f).length.value + cut == AllSamples(b, f, n) <==> skip + cut <= AllSamples(b, f, n))
  {
    hide Block.Ok, TagOf, SideBlock, Header.Valid, TagIn, CountWritten, DelaysWritten, AnnouncedLength, AllSamples,
      TimesFrames, Header.FrameSamples, TagPlace;
    CountFits(frame, TagPlace(b, f), n, ext);
    TagOfIs(b, f);
    TagIsRead(frame, TagPlace(b, f), n, ext, delay, padding);
    AllSamplesAre(b, f, n);
    var h := At(b, f.offset);
    AnnouncedAddsUp(AllChannels(h.FrameSamples(), h), n, AllChannels(delay + 529, h), (padding - 529) * h.Channels());
  }

  function KindOf(h: Header): Info
    requires h.Valid()
  {
    Info(h.Channels(), h.SampleRateHz(), h.Layer())
  }

  /** Channels, rate and layer over the bytes of a header. */
  lemma KindIs(b: seq<Byte>, i: nat)
    requires HeaderAt(b, i)
    ensures var kind := KindOf(At(b, i));
      kind.channels == (if b[i + 3] / 64 == 3 then 1 else 2) && kind.layer == 4 - (b[i + 1] / 2) % 4 &&
      (if (b[i + 1] / 8) % 4 == 3 then 1 else if (b[i + 1] / 8) % 4 == 2 then 2 else 4) * kind.hz ==
        if (b[i + 2] / 4) % 4 == 0 then 44100 else if (b[i + 2] / 4) % 4 == 1 then 48000 else 32000
  {
    hide Header.SampleRateHz;
    RateLaw(At(b, i));
  }

  /** What loading returns: the error code, and what it has found unless there is nothing to decode. */
  ghost function Loaded<S(!new)>(src: Source<S>, first: Option<FrameRef>): (int, Option<Loading>)
    requires Bounded(src) && (first.Some? ==> first.value.End() <= |src.b| && HeaderAt(src.b, first.value.offset))
  {
    if first.None? then (0, None) else
    var p, kind := PlanFor(src.b, first.value), KindOf(At(src.b, first.value.offset));
    if p.length == Some(0) then (0, None) else
    (if Decoding(src, kind, src.initial, p.start).ok then 0 else MP3D_E_DECODE,
     Some(LoadedBy(src, kind, p.start, p.skip, if p.length.Some? then p.length.value else 0)))
  }

  /** mp3dec_load_buf; the buffer is null when nothing is decoded. */
  method LoadBuf<S(!new)>(buf: seq<Byte>, src: Source<S>) returns (ret: int, info: FileInfo?)
    requires Bounded(src) && src.b == buf[..AudioRange(buf).1]
    ensures var (r, l) := Loaded(src, Find(src.b, AudioRange(buf).0, AudioRange(buf).0));
      ret == r && (info == null <==> l.None?) && (info != null ==> info.Valid() && info.Is(l.value))
    ensures ret == 0 || ret == -5
  {
    hide Loaded, Find, AudioRange, Bounded, Header.Valid;
    NothingLoaded(src);
    info := null;
    var lo, hi := SkipId3(buf);
    if lo == hi {
      NothingFound(src.b, lo);
      return 0, null;
    }
    var skipped, ff, size := FindFrame(src.b, lo);
    if size == 0 {
      return 0, null;
    }
    ret, info := LoadFrom(src, FrameRef(lo + skipped, size, ff));
  }

  lemma NothingLoaded<S(!new)>(src: Source<S>)
    requires Bounded(src)
    ensures Loaded(src, None) == (0, None)
  {}

  /** The part of mp3dec_load_buf from the first frame on. */
  method LoadFrom<S(!new)>(src: Source<S>, f: FrameRef) returns (ret: int, info: FileInfo?)
    requires Bounded(src) && f.End() <= |src.b| && f.size > 0 && HeaderAt(src.b, f.offset)
    ensures var (r, l) := Loaded(src, Some(f));
      ret == r && (info == null <==> l.None?) && (info != null ==> info.Valid() && info.Is(l.value))
    ensures ret == 0 || ret == -5
  {
    hide Decoding, LoadedBy, PlanFor, Header.Valid, Header.FrameSamples, Header.Channels;
    var start, skip, length := MakePlan(src.b, f);
    if length == Some(0) {
      return 0, null;
    }
    var h := At(src.b, f.offset);
    var guess := TimesFrames(AllChannels(h.FrameSamples(), h), (|src.b| - f.offset) / f.size);
    ret, info := DecodeAll(src, KindOf(h), start, skip, if length.Some? then length.value else 0, guess);
  }

  /** The guess of the number of samples from the length of the first frame. */
  function TimesFrames(samples: nat, frames: nat): nat { samples * frames }

  lemma NothingFound(b: seq<Byte>, lo: nat)
    requires lo >= |b|
    ensures Find(b, lo, lo).None?
  {}

  /** The part of mp3dec_load_buf that looks at the first frame. */
  method MakePlan(b: seq<Byte>, f: FrameRef) returns (start: nat, skip: nat, length: Option<nat>)
    requires f.End() <= |b| && HeaderAt(b, f.offset)
    ensures Plan(start, skip, length) == PlanFor(b, f)
  {
    hide TagOf, Header.Valid, Header.FrameSamples, Header.Channels, AllChannels;
    var h := At(b, f.offset);
    start, skip, length := f.offset, 0, None;
    if h.Layer() == 3 {
      var gr := new GrInfo[4](_ => NO_GRANULE);
      var ret, frames, delay, padding := CheckVbrTag(b, f, gr);
      if ret > 0 {
        padding := padding * h.Channels();
        skip := AllChannels(delay, h);
        var detected := TimesFrames(AllChannels(h.FrameSamples(), h), frames);
        if detected >= skip {
          detected := detected - skip;
        }
        if padding > 0 && detected >= padding {
          detected := detected - padding;
        }
        length := Some(detected);
      }
      if ret != 0 {
        start := f.End();
      }
    }
  }
}
