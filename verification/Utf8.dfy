/** AutumnAPI_UnicodeTF8: reading NUL-terminated UTF-8 text one code point at a time. */
module Utf8 {
  import opened Bits

  const REPLACEMENT: nat := 0xFFFD

  /** A NUL lies at or after `pos`. */
  ghost predicate Terminated(text: seq<Byte>, pos: nat) {
    exists z :: pos <= z < |text| && text[z] == 0
  }

  /** The number of bytes that the first byte of a sequence announces. */
  function Announced(lead: Byte): (n: nat)
    ensures 1 <= n <= 4
  {
    if lead / 32 == 6 then 2 else if lead / 16 == 14 then 3 else if lead / 8 == 30 then 4 else 1
  }

  /** The code point read at `pos` and the number of bytes the cursor advances. */
  ghost function Decoded(text: seq<Byte>, pos: nat): (r: (nat, nat))
    requires Terminated(text, pos)
  {
    var p0 := text[pos];
    if p0 == 0 then (0, 0)
    else if p0 < 0x80 then (p0, 1)
    else if exists z :: pos < z < pos + Announced(p0) && z < |text| && text[z] == 0 then (REPLACEMENT, 0)
    else if Announced(p0) == 1 then (REPLACEMENT, 1)
    else (Payload(text, pos, Announced(p0)), Announced(p0))
  }

  /** The payload bits of an n-byte sequence: what is left of the first byte, then six bits of each other byte. */
  ghost function Payload(text: seq<Byte>, pos: nat, n: nat): nat
    requires 2 <= n <= 4
  {
    if pos + n > |text| then 0 else
    var p0, p1 := text[pos], text[pos + 1];
    if n == 2 then Six(p0 % 32, p1)
    else if n == 3 then Six(Six(p0 % 16, p1), text[pos + 2])
    else Six(Six(Six(p0 % 8, p1), text[pos + 2]), text[pos + 3])
  }

  function Six(high: nat, b: nat): nat { high * 64 + b % 64 }

  // ---------------------------------------------------------------- the encoding of RFC 3629, section 3

  /** Unicode scalar values other than NUL. */
  predicate IsScalar(cp: nat) { 0 < cp < 0xD800 || 0xE000 <= cp <= 0x10FFFF }

  predicate AllScalars(cps: seq<nat>) { forall k :: 0 <= k < |cps| ==> IsScalar(cps[k]) }

  /** A continuation byte with the six bits of `x` above the lowest `64^k`. */
  function Tail(x: nat): Byte { 0x80 + x % 64 }

  function Encode(cp: nat): (e: seq<Byte>)
    requires IsScalar(cp)
    ensures 1 <= |e| <= 4
  {
    if cp < 0x80 then [cp]
    else if cp < 0x800 then [0xC0 + cp / 64, Tail(cp)]
    else if cp < 0x1_0000 then [0xE0 + cp / 64 / 64, Tail(cp / 64), Tail(cp)]
    else [0xF0 + cp / 64 / 64 / 64, Tail(cp / 64 / 64), Tail(cp / 64), Tail(cp)]
  }

  function EncodeAll(cps: seq<nat>): seq<Byte>
    requires AllScalars(cps)
  {
    if cps == [] then [] else EncodeAll(cps[..|cps| - 1]) + Encode(cps[|cps| - 1])
  }

  predicate LiesAt(text: seq<Byte>, pos: nat, bytes: seq<Byte>) {
    pos + |bytes| <= |text| && text[pos..pos + |bytes|] == bytes
  }

  /** Decoding inverts encoding, and the cursor advances by the length of the encoding. */
  lemma DecodeInvertsEncode(text: seq<Byte>, pos: nat, cp: nat)
    requires IsScalar(cp) && LiesAt(text, pos, Encode(cp)) && Terminated(text, pos)
    ensures Decoded(text, pos) == (cp, |Encode(cp)|)
  {
    var e := Encode(cp);
    assert forall k :: 0 <= k < |e| ==> text[pos + k] == e[k];
    assert text[pos] == e[0];
    assert |e| > 1 ==> Announced(e[0]) == |e|;
    assert forall z :: pos <= z < pos + |e| ==> text[z] != 0 by {
      forall z | pos <= z < pos + |e| ensures text[z] != 0 {
        assert text[z] == e[z - pos];
      }
    }
    if |e| > 1 {
      PayloadOfEncoding(text, pos, cp);
    }
  }

  lemma PayloadOfEncoding(text: seq<Byte>, pos: nat, cp: nat)
    requires IsScalar(cp) && |Encode(cp)| >= 2 && LiesAt(text, pos, Encode(cp))
    ensures Payload(text, pos, |Encode(cp)|) == cp
  {
    hide Six, Tail;
    BytesLie(text, pos, Encode(cp));
    SixJoins(cp);
    SixJoins(cp / 64);
    SixJoins(cp / 64 / 64);
    LeadBits(cp);
  }

  lemma BytesLie(text: seq<Byte>, pos: nat, e: seq<Byte>)
    requires LiesAt(text, pos, e)
    ensures |e| > 0 ==> text[pos] == e[0]
    ensures |e| > 1 ==> text[pos + 1] == e[1]
    ensures |e| > 2 ==> text[pos + 2] == e[2]
    ensures |e| > 3 ==> text[pos + 3] == e[3]
  {
    var t := text[pos..pos + |e|];
    assert t == e;
    assert |e| > 0 ==> t[0] == text[pos];
    assert |e| > 1 ==> t[1] == text[pos + 1];
    assert |e| > 2 ==> t[2] == text[pos + 2];
    assert |e| > 3 ==> t[3] == text[pos + 3];
  }

  lemma LeadBits(cp: nat)
    requires cp <= 0x10FFFF
    ensures cp < 0x800 ==> (0xC0 + cp / 64) % 32 == cp / 64
    ensures cp < 0x1_0000 ==> (0xE0 + cp / 64 / 64) % 16 == cp / 64 / 64
    ensures (0xF0 + cp / 64 / 64 / 64) % 8 == cp / 64 / 64 / 64
  {}

  lemma SixJoins(x: nat)
    ensures Six(x / 64, Tail(x)) == x
  {}

  lemma {:induction false} EncodingSplits(cps: seq<nat>, k: nat)
    requires AllScalars(cps) && k < |cps|
    ensures EncodeAll(cps[..k + 1]) == EncodeAll(cps[..k]) + Encode(cps[k])
    ensures EncodeAll(cps[..k + 1]) <= EncodeAll(cps)
    decreases |cps|
  {
    assert cps[..k + 1][..k] == cps[..k];
    if k + 1 < |cps| {
      var front := cps[..|cps| - 1];
      EncodingSplits(front, k);
      assert front[..k + 1] == cps[..k + 1] && front[..k] == cps[..k];
    } else {
      assert cps[..k + 1] == cps;
    }
  }

  /** The NUL-terminated encoding of `cps` lies at `pos`. */
  predicate TextOf(text: seq<Byte>, pos: nat, cps: seq<nat>)
    requires AllScalars(cps)
  {
    LiesAt(text, pos, EncodeAll(cps) + [0])
  }

  /** Each code point lies behind the encodings of those before it. */
  lemma CodePointAt(text: seq<Byte>, pos: nat, cps: seq<nat>, k: nat)
    requires AllScalars(cps) && TextOf(text, pos, cps) && k <= |cps|
    ensures var q := pos + |EncodeAll(cps[..k])|;
      q < |text| && Terminated(text, q) && (k == |cps| ==> text[q] == 0) &&
      (k < |cps| ==> LiesAt(text, q, Encode(cps[k])))
  {
    hide EncodeAll, Encode;
    var all := EncodeAll(cps);
    assert (all + [0])[|all|] == 0;
    assert text[pos + |all|] == text[pos..pos + |all| + 1][|all|];
    if k < |cps| {
      EncodingSplits(cps, k);
      PartLies(text, pos, all, EncodeAll(cps[..k]), Encode(cps[k]));
    } else {
      assert cps[..k] == cps;
    }
  }

  lemma PartLies(text: seq<Byte>, pos: nat, all: seq<Byte>, before: seq<Byte>, part: seq<Byte>)
    requires LiesAt(text, pos, all + [0]) && before + part <= all
    ensures LiesAt(text, pos + |before|, part)
  {
    var t, m, n := text[pos..pos + |all| + 1], |before|, |before| + |part|;
    var rest := all[n..] + [0];
    assert all == all[..n] + all[n..] && all[..n] == before + part;
    assert t == all + [0];
    FourParts(before, part, all[n..], [0]);
    MiddleOfThree(before, part, rest);
    assert text[pos + m..pos + n] == t[m..n];
  }

  lemma FourParts<T>(a: seq<T>, b: seq<T>, c: seq<T>, d: seq<T>)
    ensures ((a + b) + c) + d == a + b + (c + d)
  {}

  lemma MiddleOfThree<T>(a: seq<T>, b: seq<T>, c: seq<T>)
    ensures (a + b + c)[|a|..|a| + |b|] == b
  {}

  /**
   * The round trip: after reading the first `k` code points of an encoded text the next call returns the k-th one and
   * advances behind it, and at the end the call returns 0 and stays.
   */
  lemma RoundTrip(text: seq<Byte>, pos: nat, cps: seq<nat>, k: nat)
    requires AllScalars(cps) && TextOf(text, pos, cps) && k <= |cps|
    ensures var q := pos + |EncodeAll(cps[..k])|;
      Terminated(text, q) &&
      (k == |cps| ==> Decoded(text, q) == (0, 0)) &&
      (k < |cps| ==> Decoded(text, q) == (cps[k], |EncodeAll(cps[..k + 1])| - |EncodeAll(cps[..k])|))
  {
    hide EncodeAll, Encode, Decoded, TextOf;
    CodePointAt(text, pos, cps, k);
    var q := pos + |EncodeAll(cps[..k])|;
    if k < |cps| {
      EncodingSplits(cps, k);
      DecodeInvertsEncode(text, q, cps[k]);
    } else {
      NothingAtNul(text, q);
    }
  }

  lemma NothingAtNul(text: seq<Byte>, pos: nat)
    requires Terminated(text, pos) && text[pos] == 0
    ensures Decoded(text, pos) == (0, 0)
  {}

  /**
   * A call makes progress exactly when the sequence its first byte announces ends before the terminating NUL. When it
   * does not, the cursor stays and a caller that reads until the NUL never gets there.
   */
  lemma ProgressIff(text: seq<Byte>, pos: nat, nul: nat)
    requires pos < nul < |text| && text[nul] == 0 && forall z :: pos <= z < nul ==> text[z] != 0
    ensures Terminated(text, pos)
    ensures Decoded(text, pos).1 > 0 <==> pos + Announced(text[pos]) <= nul
    ensures Decoded(text, pos).1 == 0 ==> Decoded(text, pos).0 == REPLACEMENT
  {}

  /**
   * A byte that starts no sequence is read as U+FFFD and passed over; a sequence that the NUL cuts short is read as
   * U+FFFD without being passed over.
   */
  lemma OthersAreReplaced(text: seq<Byte>, pos: nat, nul: nat)
    requires pos < nul < |text| && text[nul] == 0 && forall z :: pos <= z < nul ==> text[z] != 0
    ensures Terminated(text, pos)
    ensures 0x80 <= text[pos] < 0xC0 || 0xF8 <= text[pos] ==> Decoded(text, pos) == (0xFFFD, 1)
    ensures 0xC0 <= text[pos] < 0xF8 && nul == pos + 1 ==> Decoded(text, pos) == (0xFFFD, 0)
    ensures 0xE0 <= text[pos] < 0xF8 && nul == pos + 2 ==> Decoded(text, pos) == (0xFFFD, 0)
    ensures 0xF0 <= text[pos] < 0xF8 && nul == pos + 3 ==> Decoded(text, pos) == (0xFFFD, 0)
  {}

  /** Any other sequence is read for the bits behind its length marks, whatever the marks of its later bytes are. */
  lemma SequenceIsRead(text: seq<Byte>, pos: nat, nul: nat)
    requires pos < nul < |text| && text[nul] == 0 && forall z :: pos <= z < nul ==> text[z] != 0
    ensures Terminated(text, pos)
    ensures text[pos] < 0x80 ==> Decoded(text, pos) == (text[pos], 1)
    ensures 0xC0 <= text[pos] < 0xE0 && pos + 2 <= nul ==>
              Decoded(text, pos) == (BitsAt(text, 8 * pos + 3, 5) * 64 + BitsAt(text, 8 * pos + 10, 6), 2)
    ensures 0xE0 <= text[pos] < 0xF0 && pos + 3 <= nul ==>
              Decoded(text, pos) == (BitsAt(text, 8 * pos + 4, 4) * 4096 + BitsAt(text, 8 * pos + 10, 6) * 64 +
                                     BitsAt(text, 8 * pos + 18, 6), 3)
    ensures 0xF0 <= text[pos] < 0xF8 && pos + 4 <= nul ==>
              Decoded(text, pos) == (BitsAt(text, 8 * pos + 5, 3) * 262144 + BitsAt(text, 8 * pos + 10, 6) * 4096 +
                                     BitsAt(text, 8 * pos + 18, 6) * 64 + BitsAt(text, 8 * pos + 26, 6), 4)
  {
    hide BitsAt, Decoded;
    SequenceIsPayload(text, pos, nul);
    LastBits(text, pos);
    if pos + 2 <= nul { LastBits(text, pos + 1); }
    if pos + 3 <= nul { LastBits(text, pos + 2); }
    if pos + 4 <= nul { LastBits(text, pos + 3); }
  }

  lemma SequenceIsPayload(text: seq<Byte>, pos: nat, nul: nat)
    requires pos < nul < |text| && text[nul] == 0 && forall z :: pos <= z < nul ==> text[z] != 0
    ensures Terminated(text, pos)
    ensures text[pos] < 0x80 ==> Decoded(text, pos) == (text[pos], 1)
    ensures 0xC0 <= text[pos] < 0xE0 && pos + 2 <= nul ==> Decoded(text, pos) == (Payload(text, pos, 2), 2)
    ensures 0xE0 <= text[pos] < 0xF0 && pos + 3 <= nul ==> Decoded(text, pos) == (Payload(text, pos, 3), 3)
    ensures 0xF0 <= text[pos] < 0xF8 && pos + 4 <= nul ==> Decoded(text, pos) == (Payload(text, pos, 4), 4)
  {
    hide Payload;
  }

  lemma LastBits(text: seq<Byte>, k: nat)
    requires k < |text|
    ensures BitsAt(text, 8 * k + 5, 3) == text[k] % 8 && BitsAt(text, 8 * k + 4, 4) == text[k] % 16
    ensures BitsAt(text, 8 * k + 3, 5) == text[k] % 32 && BitsAt(text, 8 * k + 2, 6) == text[k] % 64
  {
    hide BitsAt;
    TrailingBits(text, k, 3);
    TrailingBits(text, k, 4);
    TrailingBits(text, k, 5);
    TrailingBits(text, k, 6);
    ThreeBits(text[k]);
    FourBits(text[k]);
    FiveBits(text[k]);
    SixBits(text[k]);
  }

  lemma ThreeBits(x: nat)
    ensures Low(x, 3) == x % 8
  {
    hide Low;
    OneBitMore(x, 2);
    OneBitMore(x / 2, 1);
    OneBitMore(x / 2 / 2, 0);
    assert Low(x / 2 / 2 / 2, 0) < Shl(1, 0) == 1;
    assert x == 8 * (x / 2 / 2 / 2) + (4 * (x / 2 / 2 % 2) + 2 * (x / 2 % 2) + x % 2);
  }

  lemma FourBits(x: nat)
    ensures Low(x, 4) == x % 16
  {
    hide Low;
    OneBitMore(x, 3);
    ThreeBits(x / 2);
    assert x == 16 * (x / 2 / 8) + (2 * (x / 2 % 8) + x % 2);
  }

  lemma FiveBits(x: nat)
    ensures Low(x, 5) == x % 32
  {
    hide Low;
    OneBitMore(x, 4);
    FourBits(x / 2);
    assert x == 32 * (x / 2 / 16) + (2 * (x / 2 % 16) + x % 2);
  }

  lemma SixBits(x: nat)
    ensures Low(x, 6) == x % 64
  {
    hide Low;
    OneBitMore(x, 5);
    FiveBits(x / 2);
    assert x == 64 * (x / 2 / 32) + (2 * (x / 2 % 32) + x % 2);
  }

  lemma OneBitMore(x: nat, n: nat)
    ensures Low(x, n + 1) == 2 * Low(x / 2, n) + x % 2
  {}

  // ---------------------------------------------------------------- a caller's loop over any text

  /** Where the cursor is after `n` calls. */
  ghost function After(text: seq<Byte>, pos: nat, n: nat): (q: nat)
    requires Terminated(text, pos)
    ensures pos <= q && Terminated(text, q)
  {
    if n == 0 then pos else
    var q := After(text, pos, n - 1);
    AdvancesInside(text, q);
    q + Decoded(text, q).1
  }

  lemma AdvancesInside(text: seq<Byte>, pos: nat)
    requires Terminated(text, pos)
    ensures Terminated(text, pos + Decoded(text, pos).1)
  {
    var z :| pos <= z < |text| && text[z] == 0;
    assert pos + Decoded(text, pos).1 <= z;
  }

  /** The code point that call `n` returns; a loop ends with the first call that returns 0. */
  ghost function Read(text: seq<Byte>, pos: nat, n: nat): nat
    requires Terminated(text, pos)
  {
    Decoded(text, After(text, pos, n)).0
  }

  /** The loop gets as far as call `n`. */
  ghost predicate Gets(text: seq<Byte>, pos: nat, n: nat)
    requires Terminated(text, pos)
  {
    forall m :: 0 <= m < n ==> Read(text, pos, m) != 0
  }

  /** The sequence that starts at `pos` is cut short by the end of the text. */
  ghost predicate IsCut(text: seq<Byte>, pos: nat)
    requires Terminated(text, pos)
  {
    text[pos] != 0 && exists z :: pos < z < pos + Announced(text[pos]) && z < |text| && text[z] == 0
  }

  lemma CutIff(text: seq<Byte>, pos: nat)
    requires Terminated(text, pos)
    ensures IsCut(text, pos) ==> Decoded(text, pos) == (REPLACEMENT, 0)
    ensures !IsCut(text, pos) && Decoded(text, pos).0 != 0 ==> Decoded(text, pos).1 > 0
  {
    hide Payload;
  }

  /** Once there, the loop stays there. */
  lemma {:induction false} StaysCut(text: seq<Byte>, pos: nat, m: nat, n: nat)
    requires Terminated(text, pos) && m <= n && IsCut(text, After(text, pos, m))
    ensures After(text, pos, n) == After(text, pos, m) && Read(text, pos, n) == REPLACEMENT
    decreases n
  {
    hide IsCut, Decoded;
    CutIff(text, After(text, pos, m));
    if m < n { StaysCut(text, pos, m, n - 1); }
  }

  /** Without cut sequences each call takes the loop further. */
  lemma {:induction false} GoesOn(text: seq<Byte>, pos: nat, n: nat)
    requires Terminated(text, pos) && Gets(text, pos, n)
    requires forall m: nat :: m < n ==> !IsCut(text, After(text, pos, m))
    ensures pos + n <= After(text, pos, n) < |text|
  {
    hide IsCut, Decoded;
    if n > 0 {
      GoesOn(text, pos, n - 1);
      var m: nat := n - 1;
      assert Read(text, pos, m) != 0 && !IsCut(text, After(text, pos, m));
      CutIff(text, After(text, pos, m));
    }
  }

  /** For every text: a caller's loop ends if and only if no position it gets to has a sequence cut short by the end. */
  lemma LoopEndsIff(text: seq<Byte>, pos: nat)
    requires Terminated(text, pos)
    ensures (exists n: nat :: Read(text, pos, n) == 0) <==>
            (forall n: nat :: Gets(text, pos, n) ==> !IsCut(text, After(text, pos, n)))
  {
    hide IsCut, Decoded, Read, After;
    if n: nat :| Read(text, pos, n) == 0 {
      forall m: nat | Gets(text, pos, m) ensures !IsCut(text, After(text, pos, m)) {
        if IsCut(text, After(text, pos, m)) { StaysCut(text, pos, m, if m < n then n else m); }
      }
    } else {
      if forall n: nat :: Gets(text, pos, n) ==> !IsCut(text, After(text, pos, n)) {
        forall m: nat ensures !IsCut(text, After(text, pos, m)) { assert Gets(text, pos, m); }
        GoesOn(text, pos, |text|);
      }
    }
  }

  class Cursor {
    const text: seq<Byte>
    var pos: nat

    constructor (text: seq<Byte>, pos: nat)
      ensures this.text == text && this.pos == pos
    {
      this.text, this.pos := text, pos;
    }

    /** AutumnAPI_UnicodeTF8; the shaping call for four-byte sequences has no effect on the text and is not modelled. */
    method UnicodeTF8() returns (cp: nat)
      requires Terminated(text, pos)
      modifies this
      ensures (cp, pos - old(pos)) == Decoded(text, old(pos))
      ensures pos >= old(pos) && Terminated(text, pos)
    {
      hide Six;
      var p := pos;
      if text[p] == 0 {
        return 0;
      }
      if text[p] < 0x80 {
        pos := pos + 1;
        return text[p];
      } else if text[p] / 32 == 6 {
        if text[p + 1] == 0 {
          return REPLACEMENT;
        }
        pos := pos + 2;
        return Six(text[p] % 32, text[p + 1]);
      } else if text[p] / 16 == 14 {
        if text[p + 1] == 0 || text[p + 2] == 0 {
          return REPLACEMENT;
        }
        pos := pos + 3;
        return Six(Six(text[p] % 16, text[p + 1]), text[p + 2]);
      } else if text[p] / 8 == 30 {
        if text[p + 1] == 0 || text[p + 2] == 0 || text[p + 3] == 0 {
          return REPLACEMENT;
        }
        pos := pos + 4;
        return Six(Six(Six(text[p] % 8, text[p + 1]), text[p + 2]), text[p + 3]);
      }
      pos := pos + 1;
      return REPLACEMENT;
    }

    /**
     * The loop with which a caller reads a text, for every text over which it ends: it gives what the calls return,
     * up to the first 0.
     */
    method ReadAll() returns (out: seq<nat>)
      requires Terminated(text, pos) && forall n: nat :: Gets(text, pos, n) ==> !IsCut(text, After(text, pos, n))
      modifies this
      ensures Read(text, old(pos), |out|) == 0 && forall k :: 0 <= k < |out| ==> out[k] == Read(text, old(pos), k) != 0
    {
      hide IsCut, Decoded;
      out := [];
      NulIsZero(text, pos);
      while text[pos] != 0
        invariant Terminated(text, pos) && pos == After(text, old(pos), |out|)
        invariant forall k :: 0 <= k < |out| ==> out[k] == Read(text, old(pos), k) != 0
        invariant text[pos] == 0 ==> Read(text, old(pos), |out|) == 0
        decreases |text| - pos
      {
        assert Gets(text, old(pos), |out|);
        CutIff(text, pos);
        var cp := UnicodeTF8();
        if cp == 0 {
          break;
        }
        out := out + [cp];
        NulIsZero(text, pos);
      }
    }
  }

  lemma NulIsZero(text: seq<Byte>, pos: nat)
    requires Terminated(text, pos)
    ensures text[pos] == 0 ==> Decoded(text, pos).0 == 0
  {}

  /** On the encoding of a text the loop ends, and gives exactly its code points. */
  lemma ReadsEncoding(text: seq<Byte>, pos: nat, cps: seq<nat>, out: seq<nat>)
    requires AllScalars(cps) && TextOf(text, pos, cps)
    ensures Terminated(text, pos) && forall n: nat :: Gets(text, pos, n) ==> !IsCut(text, After(text, pos, n))
    ensures Read(text, pos, |out|) == 0 && (forall k :: 0 <= k < |out| ==> out[k] == Read(text, pos, k) != 0) <==>
              out == cps
  {
    hide EncodeAll, Encode, Decoded, TextOf, Read, After, IsCut;
    EncodedPositions(text, pos, cps, |cps|);
    LoopEndsIff(text, pos);
    forall k: nat | k < |cps| ensures Read(text, pos, k) == cps[k] != 0 { EncodedPositions(text, pos, cps, k); }
    if Read(text, pos, |out|) == 0 && (forall k :: 0 <= k < |out| ==> out[k] == Read(text, pos, k) != 0) {
      assert |out| == |cps|;
    }
  }

  lemma {:induction false} EncodedPositions(text: seq<Byte>, pos: nat, cps: seq<nat>, n: nat)
    requires AllScalars(cps) && TextOf(text, pos, cps) && n <= |cps|
    ensures Terminated(text, pos) && After(text, pos, n) == pos + |EncodeAll(cps[..n])|
    ensures Read(text, pos, n) == if n < |cps| then cps[n] else 0
  {
    hide EncodeAll, Encode, Decoded, TextOf;
    NoneEncoded(cps);
    RoundTrip(text, pos, cps, 0);
    RoundTrip(text, pos, cps, n);
    if n > 0 {
      EncodedPositions(text, pos, cps, n - 1);
      RoundTrip(text, pos, cps, n - 1);
    }
  }

  lemma NoneEncoded(cps: seq<nat>)
    requires AllScalars(cps)
    ensures |EncodeAll(cps[..0])| == 0
  {}

}
