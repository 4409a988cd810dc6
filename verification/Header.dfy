/** The four header bytes of an MPEG audio frame and what minimp3 derives from them. */
module Header {
  import opened Bits

  const HDR_SIZE: nat := 4

  datatype Header = Header(b0: Byte, b1: Byte, b2: Byte, b3: Byte) {

    predicate IsMono() { b3 / 64 == 3 }

    predicate IsFreeFormat() { b2 / 16 == 0 }

    predicate IsCrc() { b1 % 2 == 0 }

    predicate TestPadding() { (b2 / 2) % 2 == 1 }

    predicate TestMpeg1() { (b1 / 8) % 2 == 1 }

    predicate TestNotMpeg25() { (b1 / 16) % 2 == 1 }

    function GetLayer(): (l: nat)
      ensures l < 4
    {
      (b1 / 2) % 4
    }

    function GetBitrate(): nat { b2 / 16 }

    function GetSampleRate(): nat { (b2 / 4) % 4 }

    predicate IsFrame576() { (b1 / 2) % 8 == 1 }

    predicate IsLayer1() { (b1 / 2) % 4 == 3 }

    /** hdr_valid */
    predicate Valid() {
      b0 == 0xff && (b1 / 16 == 0xf || b1 / 2 == 0xe2 / 2) &&
      GetLayer() != 0 && GetBitrate() != 15 && GetSampleRate() != 3
    }

    /** hdr_compare: `h2` may follow this header in one stream. */
    predicate Compare(h2: Header) {
      h2.Valid() && b1 / 2 == h2.b1 / 2 && GetSampleRate() == h2.GetSampleRate() &&
      (IsFreeFormat() <==> h2.IsFreeFormat())
    }

    function Channels(): (c: nat)
      ensures 1 <= c <= 2
    {
      if IsMono() then 1 else 2
    }

    /** The layer number 1, 2 or 3 reported in mp3dec_frame_info_t. */
    function Layer(): nat { 4 - GetLayer() }

    /** hdr_bitrate_kbps */
    function BitrateKbps(): nat
      requires Valid()
    {
      2 * HALFRATE[if TestMpeg1() then 1 else 0][GetLayer() - 1][GetBitrate()]
    }

    /** hdr_sample_rate_hz */
    function SampleRateHz(): (hz: nat)
      requires Valid()
      ensures hz > 0
    {
      var full := SAMPLE_RATES[GetSampleRate()];
      full / (if TestMpeg1() then 1 else 2) / (if TestNotMpeg25() then 1 else 2)
    }

    /** hdr_frame_samples */
    function FrameSamples(): (n: nat)
      ensures n == 384 || n == 576 || n == 1152
    {
      if IsLayer1() then 384 else if IsFrame576() then 576 else 1152
    }

    /** hdr_frame_bytes */
    function FrameBytes(freeFormat: nat): nat
      requires Valid()
    {
      var bytes := BytesAtRate(FrameSamples(), BitrateKbps(), SampleRateHz());
      var aligned := if IsLayer1() then bytes - bytes % 4 else bytes;
      if aligned != 0 then aligned else freeFormat
    }

    /** hdr_padding */
    function Padding(): nat {
      if TestPadding() then if IsLayer1() then 4 else 1 else 0
    }
  }

  function BytesAtRate(samples: nat, kbps: nat, hz: nat): nat
    requires hz > 0
  {
    samples * kbps * 125 / hz
  }

  const SAMPLE_RATES: seq<nat> := [44100, 48000, 32000]

  const HALFRATE: seq<seq<seq<nat>>> := [
    [ [0, 4, 8, 12, 16, 20, 24, 28, 32, 40, 48, 56, 64, 72, 80],
      [0, 4, 8, 12, 16, 20, 24, 28, 32, 40, 48, 56, 64, 72, 80],
      [0, 16, 24, 28, 32, 40, 48, 56, 64, 72, 80, 88, 96, 112, 128] ],
    [ [0, 16, 20, 24, 28, 32, 40, 48, 56, 64, 80, 96, 112, 128, 160],
      [0, 16, 24, 28, 32, 40, 48, 56, 64, 80, 96, 112, 128, 160, 192],
      [0, 16, 32, 48, 64, 80, 96, 112, 128, 144, 160, 176, 192, 208, 224] ]
  ]

  function At(buf: seq<Byte>, i: nat): Header
    requires i + HDR_SIZE <= |buf|
  {
    Header(buf[i], buf[i + 1], buf[i + 2], buf[i + 3])
  }

  /** The bit rate in units of 2 kbps: 0 for free format, otherwise within the range of version and layer. */
  lemma RateRange(m: nat, l: nat, i: nat)
    requires m < 2 && l < 3 && i < 15
    ensures i == 0 ==> HALFRATE[m][l][i] == 0
    ensures i > 0 && m == 0 ==> (if l < 2 then 4 else 16) <= HALFRATE[m][l][i] <= (if l < 2 then 80 else 128)
    ensures i > 0 && m == 1 ==> 16 <= HALFRATE[m][l][i] <= (if l == 0 then 160 else if l == 1 then 192 else 224)
  {
    var row := HALFRATE[m][l];
    assert |row| == 15 && row[0] == 0;
  }

  /** The frame lengths for the rates that a version and layer allow. */
  lemma LengthRange(l: nat, half: nat, hz: nat, samples: nat)
    requires l < 3 && hz > 0
    requires hz == 44100 || hz == 48000 || hz == 32000 ==>
               samples == (if l == 2 then 384 else 1152) &&
                 half <= (if l == 0 then 160 else if l == 1 then 192 else 224)
    requires hz == 22050 || hz == 24000 || hz == 16000 ==>
               samples == (if l == 2 then 384 else if l == 1 then 1152 else 576) && half <= (if l < 2 then 80 else 128)
    requires hz == 11025 || hz == 12000 || hz == 8000 ==> l == 0 && samples == 576 && half <= 80
    requires half == 0 || half >= (if hz >= 32000 || l == 2 then 16 else 4)
    requires hz in {44100, 48000, 32000, 22050, 24000, 16000, 11025, 12000, 8000}
    ensures half == 0 ==> BytesAtRate(samples, 2 * half, hz) == 0
    ensures half > 0 ==> 24 <= BytesAtRate(samples, 2 * half, hz) <= 1728
  {
    if samples == 384 {
      assert samples * (2 * half) * 125 == 96000 * half;
    } else if samples == 576 {
      assert samples * (2 * half) * 125 == 144000 * half;
    } else {
      assert samples * (2 * half) * 125 == 288000 * half;
    }
  }

  /**
   * Only a free-format header leaves the frame length to be found by search; every other length is 24 to 1728 bytes.
   */
  lemma FrameLengthFromHeader(h: Header, freeFormat: nat)
    requires h.Valid()
    ensures h.IsFreeFormat() ==> h.FrameBytes(freeFormat) == freeFormat
    ensures !h.IsFreeFormat() ==> 24 <= h.FrameBytes(freeFormat) <= 1728
  {
    var m, l, i, r := if h.TestMpeg1() then 1 else 0, h.GetLayer() - 1, h.GetBitrate(), h.GetSampleRate();
    RateRange(m, l, i);
    var half, hz := HALFRATE[m][l][i], h.SampleRateHz();
    assert h.TestMpeg1() ==> h.TestNotMpeg25() && (hz == 44100 || hz == 48000 || hz == 32000);
    assert !h.TestMpeg1() && h.TestNotMpeg25() ==> hz == 22050 || hz == 24000 || hz == 16000;
    assert !h.TestNotMpeg25() ==> l == 0 && (hz == 11025 || hz == 12000 || hz == 8000);
    assert l == 2 ==> h.FrameSamples() == 384;
    assert l == 1 ==> h.FrameSamples() == 1152;
    assert l == 0 ==> h.FrameSamples() == if h.TestMpeg1() then 1152 else 576;
    assert h.BitrateKbps() == 2 * half;
    LengthRange(l, half, hz, h.FrameSamples());
  }

  /** Rate and layer fix the number of samples. */
  lemma SameFrameSamples(g: Header, h: Header)
    requires g.Valid() && h.Valid() && g.SampleRateHz() == h.SampleRateHz() && g.Layer() == h.Layer()
    ensures g.FrameSamples() == h.FrameSamples()
  {
    hide Header.Valid, Header.SampleRateHz, Header.TestMpeg1;
    RateOfVersion(g);
    RateOfVersion(h);
    SamplesOfVersion(g);
    SamplesOfVersion(h);
  }

  lemma SamplesOfVersion(h: Header)
    ensures h.FrameSamples() == if h.Layer() == 1 then 384 else if h.Layer() == 3 && !h.TestMpeg1() then 576 else 1152
  {}

  lemma RateOfVersion(h: Header)
    requires h.Valid()
    ensures h.TestMpeg1() <==> h.SampleRateHz() >= 32000
  {}

  // ---------------------------------------------------------------- the fields as the standard gives them

  /**
   * The syncword of eleven bits, then version, layer, bit rate and sample rate, none of them reserved; and the version
   * 2.5 for Layer III only.
   */
  lemma ValidIff(h: Header)
    ensures h.Valid() <==>
      h.b0 == 255 && h.b1 >= 224 && (h.b1 / 8) % 4 != 1 && (h.b1 / 2) % 4 != 0 &&
      ((h.b1 / 8) % 4 == 0 ==> (h.b1 / 2) % 4 == 1) && h.b2 / 16 != 15 && (h.b2 / 4) % 4 != 3
  {}

  /** Two headers belong to one stream if and only if rate, layer and being free-format agree. */
  lemma CompareIff(g: Header, h: Header)
    requires g.Valid()
    ensures g.Compare(h) <==>
      h.Valid() && g.SampleRateHz() == h.SampleRateHz() && g.Layer() == h.Layer() &&
      (g.b2 / 16 == 0 <==> h.b2 / 16 == 0)
  {
    if h.Valid() {
      RateLaw(g);
      RateLaw(h);
    }
  }

  /** 44100, 48000 and 32000 Hz for MPEG-1, half of that for MPEG-2 and a quarter for MPEG-2.5. */
  lemma RateLaw(h: Header)
    requires h.Valid()
    ensures var (version, r, hz) := ((h.b1 / 8) % 4, (h.b2 / 4) % 4, h.SampleRateHz());
      (if version == 3 then 1 else if version == 2 then 2 else 4) * hz ==
        if r == 0 then 44100 else if r == 1 then 48000 else 32000
  {}

  /** 32 kbps rising by 8 for five steps; then each rate is twice the one four steps before. */
  function FourAnOctave(i: nat): nat
    requires i > 0
  {
    if i <= 5 then 24 + 8 * i else 2 * FourAnOctave(i - 4)
  }

  /** The bit rates by version and layer; from the second on MPEG-1 Layer II is one step ahead of Layer III. */
  lemma BitrateLaw(h: Header)
    requires h.Valid() && h.b2 / 16 > 0
    ensures var (mpeg1, layer, i, kbps) := ((h.b1 / 8) % 4 == 3, 4 - (h.b1 / 2) % 4, h.b2 / 16, h.BitrateKbps());
      (mpeg1 && layer == 1 ==> kbps == 32 * i) &&
      (mpeg1 && layer == 2 ==> kbps == if i == 1 then 32 else FourAnOctave(i + 1)) &&
      (mpeg1 && layer == 3 ==> kbps == FourAnOctave(i)) &&
      (!mpeg1 && layer == 1 ==>
         kbps == if i == 1 then 32 else if i <= 3 then 32 + 8 * i else if i <= 12 then 16 * i else 32 * (i - 6)) &&
      (!mpeg1 && layer >= 2 ==> kbps == if i <= 8 then 8 * i else 16 * (i - 4))
  {
    OctavesAre();
    TableRows(if h.TestMpeg1() then 1 else 0, h.GetLayer() - 1, h.GetBitrate());
  }

  lemma OctavesAre()
    ensures FourAnOctave(6) == 80 && FourAnOctave(7) == 96 && FourAnOctave(8) == 112 && FourAnOctave(9) == 128
    ensures FourAnOctave(10) == 160 && FourAnOctave(11) == 192 && FourAnOctave(12) == 224 && FourAnOctave(13) == 256
    ensures FourAnOctave(14) == 320 && FourAnOctave(15) == 384
  {}

  lemma TableRows(m: nat, l: nat, i: nat)
    requires m < 2 && l < 3 && 0 < i < 15
    ensures m == 0 && l < 2 ==> HALFRATE[m][l][i] == if i <= 8 then 4 * i else 8 * (i - 4)
    ensures m == 0 && l == 2 ==>
              HALFRATE[m][l][i] == if i == 1 then 16 else if i <= 3 then 16 + 4 * i
                                   else if i <= 12 then 8 * i else 16 * (i - 6)
    ensures m == 1 && l == 0 ==> 2 * HALFRATE[m][l][i] == FourAnOctave(i)
    ensures m == 1 && l == 1 ==> 2 * HALFRATE[m][l][i] == if i == 1 then 32 else FourAnOctave(i + 1)
    ensures m == 1 && l == 2 ==> HALFRATE[m][l][i] == 16 * i
  {
    OctavesAre();
    var row := HALFRATE[m][l];
    assert |row| == 15;
  }

  /** `k` times the bit rate over the sample rate, rounded down. */
  function Slots(k: nat, kbps: nat, hz: nat): nat
    requires hz > 0
  {
    k * kbps / hz
  }

  /**
   * In slots, of four bytes in Layer I and of one byte otherwise, a frame is as long as 12, 144 or (Layer III of MPEG-2
   * and 2.5) 72 times its bit rate over its sample rate, rounded down, and one slot longer when the padding bit is set.
   */
  lemma LengthLaw(h: Header, freeFormat: nat)
    requires h.Valid()
    ensures var (mpeg1, layer, padding) := ((h.b1 / 8) % 4 == 3, 4 - (h.b1 / 2) % 4, (h.b2 / 2) % 2);
      var (length, kbps, hz) := (h.FrameBytes(freeFormat) + h.Padding(), h.BitrateKbps(), h.SampleRateHz());
      if h.b2 / 16 == 0 then length == freeFormat + (if layer == 1 then 4 * padding else padding)
      else if layer == 1 then length == 4 * (Slots(12000, kbps, hz) + padding)
      else length == Slots(if layer == 2 || mpeg1 then 144000 else 72000, kbps, hz) + padding
  {
    hide Header.BitrateKbps, Header.SampleRateHz, Slots, BytesAtRate;
    FrameLengthFromHeader(h, 0);
    FrameLengthFromHeader(h, freeFormat);
    BytesOfSlots(h.BitrateKbps(), h.SampleRateHz());
  }

  lemma BytesOfSlots(kbps: nat, hz: nat)
    requires hz > 0
    ensures var bytes := BytesAtRate(384, kbps, hz); bytes - bytes % 4 == 4 * Slots(12000, kbps, hz)
    ensures BytesAtRate(576, kbps, hz) == Slots(72000, kbps, hz)
    ensures BytesAtRate(1152, kbps, hz) == Slots(144000, kbps, hz)
  {
    assert 384 * kbps * 125 == 4 * (12000 * kbps);
    assert 576 * kbps * 125 == 72000 * kbps && 1152 * kbps * 125 == 144000 * kbps;
    QuarterOf(12000 * kbps, hz);
  }

  lemma QuarterOf(x: nat, n: nat)
    requires n > 0
    ensures 4 * x / n - (4 * x / n) % 4 == 4 * (x / n)
  {
    Divided(x, n);
    var s := Quarters(x % n, n);
    FourTimes(x, n, x / n, x % n, s);
  }

  lemma Divided(x: nat, n: nat)
    requires n > 0
    ensures x == x / n * n + x % n && x % n < n
  {}

  lemma Quarters(r: nat, n: nat) returns (s: nat)
    requires r < n
    ensures s < 4 && s * n <= 4 * r < s * n + n
  {
    s := if 4 * r < n then 0 else if 4 * r < n + n then 1 else if 4 * r < n + n + n then 2 else 3;
    assert 1 * n == n && 2 * n == n + n && 3 * n == n + n + n;
  }

  lemma FourTimes(x: nat, n: nat, q: nat, r: nat, s: nat)
    requires n > 0 && x == q * n + r && s * n <= 4 * r < s * n + n && s < 4
    ensures 4 * x / n - (4 * x / n) % 4 == 4 * q
  {
    assert (4 * q + s) * n == 4 * (q * n) + s * n;
    QuotientIs(4 * x, n, 4 * q + s);
    Aligned(4 * q + s, q);
  }

  lemma Aligned(v: nat, q: nat)
    requires 4 * q <= v < 4 * q + 4
    ensures v - v % 4 == 4 * q
  {}

  lemma QuotientIs(a: nat, n: nat, q: nat)
    requires n > 0 && q * n <= a < q * n + n
    ensures a / n == q
  {
    var d := a / n;
    assert d * n <= a < d * n + n;
    if d < q { Grows(d + 1, q, n); } else if q < d { Grows(q + 1, d, n); }
  }

  lemma Grows(a: nat, b: nat, n: nat)
    requires a <= b
    ensures a * n <= b * n
  {
    assert b * n == a * n + (b - a) * n;
  }
}
