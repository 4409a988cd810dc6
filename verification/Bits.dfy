/** The MSB-first bit reader of minimp3 and the bit cache of its Huffman decoder. */
module Bits {

  type Byte = x: int | 0 <= x < 256

  /** The width of uint32_t. */
  const WORD: nat := 32

  // ---------------------------------------------------------------- shifts, masks and joins

  /** `v << n` on an unbounded word. */
  function Shl(v: nat, n: nat): nat {
    if n == 0 then v else 2 * Shl(v, n - 1)
  }

  /** `v >> n`. */
  function Shr(v: nat, n: nat): nat {
    if n == 0 then v else Shr(v / 2, n - 1)
  }

  /** `v & ((1 << n) - 1)`; at n = 32 this is truncation to a 32-bit word. */
  function Low(v: nat, n: nat): (r: nat)
    ensures r < Shl(1, n)
  {
    if n == 0 then 0 else 2 * Low(v / 2, n - 1) + v % 2
  }

  /** `a | b`. */
  function BitOr(a: nat, b: nat): nat {
    if a == 0 then b
    else if b == 0 then a
    else (if a % 2 == 1 || b % 2 == 1 then 1 else 0) + 2 * BitOr(a / 2, b / 2)
  }

  lemma {:induction false} ShlShl(v: nat, m: nat, n: nat)
    ensures Shl(Shl(v, m), n) == Shl(v, m + n)
  {
    if n > 0 {
      ShlShl(v, m, n - 1);
    }
  }

  lemma {:induction false} ShlAdds(a: nat, b: nat, n: nat)
    ensures Shl(a + b, n) == Shl(a, n) + Shl(b, n)
  {
    if n > 0 {
      ShlAdds(a, b, n - 1);
    }
  }

  lemma {:induction false} ShlZero(n: nat)
    ensures Shl(0, n) == 0
  {
    if n > 0 {
      ShlZero(n - 1);
    }
  }

  lemma {:induction false} ShlGrows(v: nat, m: nat, n: nat)
    requires m <= n
    ensures v <= Shl(v, m) <= Shl(v, n)
    decreases m + n
  {
    if m < n {
      ShlGrows(v, m, n - 1);
    } else if m > 0 {
      ShlGrows(v, m - 1, n - 1);
    }
  }

  /** A value of `m` bits shifted by `n` has `m + n` bits. */
  lemma {:induction false} ShlFits(v: nat, m: nat, n: nat)
    requires v < Shl(1, m)
    ensures Shl(v, n) < Shl(1, m + n)
  {
    if n > 0 {
      ShlFits(v, m, n - 1);
    }
  }

  lemma {:induction false} ShrOfJoin(hi: nat, lo: nat, n: nat)
    requires lo < Shl(1, n)
    ensures Shr(Shl(hi, n) + lo, n) == hi && Low(Shl(hi, n) + lo, n) == lo
  {
    if n > 0 {
      ShrOfJoin(hi, lo / 2, n - 1);
      assert (Shl(hi, n) + lo) / 2 == Shl(hi, n - 1) + lo / 2;
    }
  }

  lemma {:induction false} SplitAt(v: nat, n: nat)
    ensures v == Shl(Shr(v, n), n) + Low(v, n)
  {
    if n > 0 {
      SplitAt(v / 2, n - 1);
    }
  }

  lemma {:induction false} LowOfSmall(v: nat, n: nat)
    requires v < Shl(1, n)
    ensures Low(v, n) == v
  {
    if n > 0 {
      LowOfSmall(v / 2, n - 1);
    }
  }

  lemma {:induction false} ShrSteps(v: nat, n: nat)
    ensures Shr(v, n + 1) == Shr(v, n) / 2
  {
    if n > 0 {
      ShrSteps(v / 2, n - 1);
    }
  }

  /** Joining words whose set bits do not meet is addition. */
  lemma {:induction false} OrOfDisjoint(hi: nat, lo: nat, n: nat)
    requires lo < Shl(1, n)
    ensures BitOr(Shl(hi, n), lo) == Shl(hi, n) + lo
  {
    if n > 0 {
      OrOfDisjoint(hi, lo / 2, n - 1);
    }
  }

  lemma ShlByByte(v: nat)
    ensures Shl(v, 8) == 256 * v
  {
    assert Shl(v, 1) == 2 * v;
    assert Shl(v, 2) == 4 * v;
    assert Shl(v, 3) == 8 * v;
    assert Shl(v, 4) == 16 * v;
    assert Shl(v, 5) == 32 * v;
    assert Shl(v, 6) == 64 * v;
    assert Shl(v, 7) == 128 * v;
  }

  lemma WordIs32()
    ensures Shl(1, 8) == 256 && Shl(1, 32) == 0x1_0000_0000
  {
    ShlByByte(1);
    ShlShl(1, 8, 8);
    ShlByByte(256);
    ShlShl(1, 16, 8);
    ShlByByte(0x1_0000);
    ShlShl(1, 24, 8);
    ShlByByte(0x100_0000);
  }

  // ---------------------------------------------------------------- bit values

  function BitAt(buf: seq<Byte>, pos: nat): (b: nat)
    requires pos < 8 * |buf|
    ensures b <= 1
  {
    Shr(buf[pos / 8], 7 - pos % 8) % 2
  }

  /** The big-endian value of the `n` bits that start at bit `pos`. */
  function BitsAt(buf: seq<Byte>, pos: nat, n: nat): (v: nat)
    requires pos + n <= 8 * |buf|
    ensures v < Shl(1, n)
  {
    if n == 0 then 0 else 2 * BitsAt(buf, pos, n - 1) + BitAt(buf, pos + n - 1)
  }

  /** Two consecutive reads concatenate. */
  lemma {:induction false} BitsConcatenate(buf: seq<Byte>, pos: nat, m: nat, n: nat)
    requires pos + m + n <= 8 * |buf|
    ensures BitsAt(buf, pos, m + n) == Shl(BitsAt(buf, pos, m), n) + BitsAt(buf, pos + m, n)
  {
    if n > 0 {
      BitsConcatenate(buf, pos, m, n - 1);
      assert m + n - 1 == m + (n - 1);
    }
  }

  lemma BitsSplit(buf: seq<Byte>, pos: nat, m: nat, n: nat)
    requires pos + m + n <= 8 * |buf|
    ensures Shr(BitsAt(buf, pos, m + n), n) == BitsAt(buf, pos, m)
    ensures Low(BitsAt(buf, pos, m + n), n) == BitsAt(buf, pos + m, n)
  {
    hide Shl, Shr, Low, BitsAt, BitAt;
    BitsConcatenate(buf, pos, m, n);
    ShrOfJoin(BitsAt(buf, pos, m), BitsAt(buf, pos + m, n), n);
  }

  /** The bits of a part of a buffer. */
  lemma {:induction false} BitsOfPart(buf: seq<Byte>, from: nat, to: nat, pos: nat, n: nat)
    requires from <= to <= |buf| && pos + n <= 8 * (to - from)
    ensures BitsAt(buf[from..to], pos, n) == BitsAt(buf, 8 * from + pos, n)
  {
    hide BitAt;
    if n > 0 {
      BitsOfPart(buf, from, to, pos, n - 1);
      BitOfPart(buf, from, to, pos + n - 1);
      assert 8 * from + pos + n - 1 == 8 * from + (pos + n - 1);
    }
  }

  lemma BitOfPart(buf: seq<Byte>, from: nat, to: nat, p: nat)
    requires from <= to <= |buf| && p < 8 * (to - from)
    ensures BitAt(buf[from..to], p) == BitAt(buf, 8 * from + p)
  {
    hide Shr;
    assert (8 * from + p) / 8 == from + p / 8 && (8 * from + p) % 8 == p % 8;
  }

  lemma {:induction false} ZeroShifts(n: nat)
    ensures Shr(0, n) == 0
  {
    if n > 0 { ZeroShifts(n - 1); }
  }

  lemma {:induction false} ZeroBits(buf: seq<Byte>, pos: nat, n: nat)
    requires pos + n <= 8 * |buf| && forall p: nat :: pos <= p < pos + n ==> BitAt(buf, p) == 0
    ensures BitsAt(buf, pos, n) == 0
  {
    hide BitAt;
    if n > 0 {
      ZeroBits(buf, pos, n - 1);
      var p := pos + n - 1;
      assert BitAt(buf, p) == 0;
    }
  }

  /** The leading `n` bits of byte `k`. */
  lemma {:induction false} LeadingBits(buf: seq<Byte>, k: nat, n: nat)
    requires k < |buf| && n <= 8
    ensures BitsAt(buf, 8 * k, n) == Shr(buf[k], 8 - n)
  {
    if n == 0 {
      WordIs32();
      LowOfSmall(buf[k], 8);
      SplitAt(buf[k], 8);
      ShlGrows(Shr(buf[k], 8), 0, 8);
    } else {
      LeadingBits(buf, k, n - 1);
      assert (8 * k + n - 1) / 8 == k && (8 * k + n - 1) % 8 == n - 1;
      ShrSteps(buf[k], 8 - n);
    }
  }

  /** The last `n` bits of byte `k`. */
  lemma TrailingBits(buf: seq<Byte>, k: nat, n: nat)
    requires k < |buf| && n <= 8
    ensures BitsAt(buf, 8 * k + 8 - n, n) == Low(buf[k], n)
    ensures n == 8 ==> BitsAt(buf, 8 * k, 8) == buf[k]
  {
    LeadingBits(buf, k, 8);
    BitsSplit(buf, 8 * k, 8 - n, n);
  }

  // ---------------------------------------------------------------- get_bits

  /** What a read of `n` bits at `pos` yields: the bits, or 0 when they pass the limit. */
  function Field(buf: seq<Byte>, limit: int, pos: nat, n: nat): (v: nat)
    requires limit <= 8 * |buf|
    ensures v < Shl(1, n)
  {
    if pos + n > limit then ShlGrows(1, 0, n); 0 else BitsAt(buf, pos, n)
  }

  /** (hi, above `m` + `rest` free bits) | (lo << rest) is the joined value above `rest` free bits. */
  lemma ShiftIntoPlace(hi: nat, lo: nat, m: nat, rest: nat)
    requires lo < Shl(1, m)
    ensures BitOr(Shl(hi, m + rest), Shl(lo, rest)) == Shl(Shl(hi, m) + lo, rest)
  {
    ShlFits(lo, m, rest);
    OrOfDisjoint(hi, Shl(lo, rest), m + rest);
    ShlShl(hi, m, rest);
    ShlAdds(Shl(hi, m), lo, rest);
  }

  lemma FitsWord(lo: nat, m: nat, shl: nat, w: nat)
    requires lo < Shl(1, m) && m + shl <= w
    ensures Low(Shl(lo, shl), w) == Shl(lo, shl)
  {
    ShlFits(lo, m, shl);
    ShlGrows(1, m + shl, w);
    LowOfSmall(Shl(lo, shl), w);
  }

  /** One turn of the get_bits loop: `m` more bits enter the cache above `shl` free bits. */
  lemma CacheGrows(buf: seq<Byte>, start: nat, have: nat, m: nat, shl: nat, w: nat)
    requires start + have + m <= 8 * |buf| && m + shl <= w
    ensures BitOr(Shl(BitsAt(buf, start, have), m + shl), Low(Shl(BitsAt(buf, start + have, m), shl), w))
         == Shl(BitsAt(buf, start, have + m), shl)
  {
    hide Shl, Shr, Low, BitsAt, BitAt;
    BitsConcatenate(buf, start, have, m);
    FitsWord(BitsAt(buf, start + have, m), m, shl, w);
    ShiftIntoPlace(BitsAt(buf, start, have), BitsAt(buf, start + have, m), m, shl);
  }

  /** The end of get_bits: of the last `m + rest` bits, `rest` lie beyond the read and are dropped. */
  lemma CacheCompletes(buf: seq<Byte>, start: nat, have: nat, m: nat, rest: nat)
    requires start + have + m + rest <= 8 * |buf|
    ensures BitOr(Shl(BitsAt(buf, start, have), m), Shr(BitsAt(buf, start + have, m + rest), rest))
         == BitsAt(buf, start, have + m)
  {
    hide Shl, Shr, Low, BitsAt, BitAt;
    BitsSplit(buf, start + have, m, rest);
    BitsConcatenate(buf, start, have, m);
    OrOfDisjoint(BitsAt(buf, start, have), BitsAt(buf, start + have, m), m);
  }

  /** The get_bits loop: bits [start, q) are placed in `cache`, bits [q, 8p) wait in `next`. */
  ghost predicate Loading(buf: seq<Byte>, start: nat, end: nat, q: nat, p: nat, next: nat, cache: nat) {
    start <= q <= end <= 8 * |buf| && q <= 8 * p <= 8 * |buf| && end <= start + WORD &&
    next == BitsAt(buf, q, 8 * p - q) && cache == Shl(BitsAt(buf, start, q - start), end - q)
  }

  lemma LoadFirst(buf: seq<Byte>, p: nat, s: nat, end: nat)
    requires 8 * p + s <= end <= 8 * |buf| && end <= 8 * p + s + WORD && s < 8 && p < |buf|
    ensures Loading(buf, 8 * p + s, end, 8 * p + s, p + 1, Low(buf[p], 8 - s), 0)
  {
    assert BitsAt(buf, 8 * p + s, 0) == 0;
    hide Shl, Shr, Low, BitsAt, BitAt;
    TrailingBits(buf, p, 8 - s);
    ShlZero(end - 8 * p - s);
  }

  lemma LoadMore(buf: seq<Byte>, start: nat, end: nat, q: nat, p: nat, next: nat, cache: nat)
    requires Loading(buf, start, end, q, p, next, cache) && 8 * p < end
    ensures Loading(buf, start, end, 8 * p, p + 1, buf[p], BitOr(cache, Low(Shl(next, end - 8 * p), WORD)))
  {
    hide Shl, Shr, Low, BitsAt, BitAt;
    var have, m, shl := q - start, 8 * p - q, end - 8 * p;
    assert m + shl == end - q;
    CacheGrows(buf, start, have, m, shl, WORD);
    TrailingBits(buf, p, 8);
  }

  lemma LoadDone(buf: seq<Byte>, start: nat, end: nat, q: nat, p: nat, next: nat, cache: nat)
    requires Loading(buf, start, end, q, p, next, cache) && end <= 8 * p
    ensures BitOr(cache, Shr(next, 8 * p - end)) == BitsAt(buf, start, end - start)
  {
    hide Shl, Shr, Low, BitsAt, BitAt;
    var have, m, rest := q - start, end - q, 8 * p - end;
    assert m + rest == 8 * p - q;
    CacheCompletes(buf, start, have, m, rest);
  }

  class BitReader {
    const buf: seq<Byte>
    const limit: int
    var pos: nat

    ghost predicate Valid()
      reads this
    {
      limit <= 8 * |buf|
    }

    /** bs_init; a negative length makes every read yield 0. */
    constructor (data: seq<Byte>, bytes: int)
      requires bytes <= |data|
      ensures Valid() && buf == data && limit == 8 * bytes && pos == 0
    {
      buf := data;
      limit := 8 * bytes;
      pos := 0;
    }

    /** get_bits: the next `n` bits; past the limit the value is 0 but the cursor still moves. */
    method GetBits(n: nat) returns (v: nat)
      requires Valid() && n <= 32
      requires n == 0 ==> pos / 8 < |buf|
      modifies this
      ensures Valid() && pos == old(pos) + n
      ensures v == Field(buf, limit, old(pos), n)
    {
      hide Shl, Shr, Low, BitsAt, BitAt;
      var s := pos % 8;
      var shl: int := n + s;
      var p: nat := pos / 8;
      ghost var start, end := pos, pos + n;
      pos := pos + n;
      if pos > limit {
        return 0;
      }
      var next: nat, cache: nat := Low(buf[p], 8 - s), 0;
      LoadFirst(buf, p, s, end);
      p := p + 1;
      shl := shl - 8;
      ghost var q: nat := start;
      while shl > 0
        invariant pos == end && shl == end - 8 * p && 8 * p - end <= 8
        invariant Loading(buf, start, end, q, p, next, cache)
      {
        LoadMore(buf, start, end, q, p, next, cache);
        cache := BitOr(cache, Low(Shl(next, shl), WORD));
        q := 8 * p;
        next := buf[p];
        p := p + 1;
        shl := shl - 8;
      }
      LoadDone(buf, start, end, q, p, next, cache);
      v := BitOr(cache, Shr(next, -shl));
    }
  }

  // ---------------------------------------------------------------- the Huffman bit cache

  /** The bits a `w`-bit cache holds: the `have` bits that end before byte `next`, at its top. */
  ghost predicate Holds(buf: seq<Byte>, next: nat, have: nat, w: nat, cache: nat) {
    have <= w && have <= 8 * next <= 8 * |buf| &&
    cache == Shl(BitsAt(buf, 8 * next - have, have), w - have)
  }

  lemma EmptyCache(buf: seq<Byte>, next: nat, w: nat, cache: nat)
    requires next <= |buf|
    ensures Holds(buf, next, 0, w, cache) <==> cache == 0
  {
    ShlZero(w);
  }

  /** A value of `m` + `n` bits above `free` bits, taken apart. */
  lemma TopParts(hi: nat, lo: nat, n: nat, free: nat)
    requires lo < Shl(1, n)
    ensures Shl(Shl(hi, n) + lo, free) == Shl(hi, n + free) + Shl(lo, free)
    ensures Shl(lo, free) < Shl(1, n + free)
  {
    ShlAdds(Shl(hi, n), lo, free);
    ShlShl(hi, n, free);
    ShlFits(lo, n, free);
  }

  /** The word hi:lo:free, its first bits read off and then shifted out. */
  lemma ReadAndFlush(hi: nat, lo: nat, n: nat, rest: nat, free: nat)
    requires lo < Shl(1, rest)
    ensures Shr(Shl(Shl(hi, rest) + lo, free), rest + free) == hi
    ensures Low(Shl(Shl(Shl(hi, rest) + lo, free), n), n + (rest + free)) == Shl(lo, free + n)
  {
    hide Shl, Shr, Low, BitsAt, BitAt;
    TopParts(hi, lo, rest, free);
    ShrOfJoin(hi, Shl(lo, free), rest + free);
    ShlShl(Shl(hi, rest) + lo, free, n);
    TopParts(hi, lo, rest, free + n);
    ShrOfJoin(hi, Shl(lo, free + n), rest + (free + n));
  }

  lemma PeekAndFlushHeld(buf: seq<Byte>, next: nat, have: nat, w: nat, cache: nat, n: nat)
    requires Holds(buf, next, have, w, cache) && n <= have
    ensures Shr(cache, w - n) == BitsAt(buf, 8 * next - have, n)
    ensures Holds(buf, next, have - n, w, Low(Shl(cache, n), w))
  {
    hide Shl, Shr, Low, BitsAt, BitAt;
    var p, rest, free := 8 * next - have, have - n, w - have;
    BitsConcatenate(buf, p, n, rest);
    ReadAndFlush(BitsAt(buf, p, n), BitsAt(buf, p + n, rest), n, rest, free);
  }

  lemma FlushEmpties(buf: seq<Byte>, next: nat, have: nat, w: nat, cache: nat, n: nat)
    requires Holds(buf, next, have, w, cache) && have <= n
    ensures Low(Shl(cache, n), w) == 0
  {
    var all := BitsAt(buf, 8 * next - have, have);
    ShlShl(all, w - have, n);
    ShlShl(all, n - have, w);
    ShlGrows(1, 0, w);
    ShrOfJoin(Shl(all, n - have), 0, w);
  }

  /** CHECK_BITS appends byte `next` under the bits held. */
  lemma RefillKeeps(buf: seq<Byte>, next: nat, have: nat, w: nat, cache: nat)
    requires Holds(buf, next, have, w, cache) && next < |buf| && have + 8 <= w
    ensures Holds(buf, next + 1, have + 8, w, BitOr(cache, Low(Shl(buf[next], w - 8 - have), w)))
  {
    hide Shl, Shr, Low, BitsAt, BitAt;
    TrailingBits(buf, next, 8);
    CacheGrows(buf, 8 * next - have, have, 8, w - 8 - have, w);
  }

  /** After an overrun by `over` bits the first byte appended loses its first `over` bits. */
  lemma RefillOverrun(buf: seq<Byte>, next: nat, over: nat, w: nat)
    requires next < |buf| && over < 8 <= w
    ensures Holds(buf, next + 1, 8 - over, w, Low(Shl(buf[next], w - 8 + over), w))
  {
    hide Shl, Shr, Low, BitsAt, BitAt;
    var hi, lo := Shr(buf[next], 8 - over), Low(buf[next], 8 - over);
    TrailingBits(buf, next, 8 - over);
    SplitAt(buf[next], 8 - over);
    TopParts(hi, lo, 8 - over, w - 8 + over);
    ShrOfJoin(hi, Shl(lo, w - 8 + over), w);
  }

  /** bs_next_ptr, bs_cache and bs_sh of L3_huffman. */
  class BitCache {
    const buf: seq<Byte>
    var next: nat
    var cache: nat
    var sh: int

    /** BSPOS. */
    function Position(): int
      reads this
    {
      8 * next - 24 + sh
    }

    /** The number of bits ahead of BSPOS that the cache still holds. */
    function Held(): (n: nat)
      reads this
    {
      if sh <= 24 then 24 - sh else 0
    }

    ghost predicate Valid()
      reads this
    {
      -8 <= sh < 32 && Holds(buf, next, Held(), WORD, cache)
    }

    constructor (data: seq<Byte>, pos: nat)
      requires pos / 8 + 4 <= |data|
      ensures Valid() && buf == data && Position() == pos && sh < 0
    {
      var k := pos / 8;
      buf := data;
      next := k + 4;
      cache := Low(Shl(BigEndian(data[k], data[k + 1], data[k + 2], data[k + 3]), pos % 8), WORD);
      sh := pos % 8 - 8;
      new;
      FirstWord(buf, k);
      PeekAndFlushHeld(buf, k + 4, 32, WORD, BitsAt(buf, 8 * k, 32), pos % 8);
    }

    /** PEEK_BITS(n). */
    method Peek(n: nat) returns (v: nat)
      requires Valid() && 1 <= n <= 24 - sh
      ensures 0 <= Position() && Position() + n <= 8 * |buf|
      ensures v == BitsAt(buf, Position(), n)
    {
      PeekAndFlushHeld(buf, next, Held(), WORD, cache, n);
      v := Shr(cache, WORD - n);
    }

    /** FLUSH_BITS(n). */
    method Flush(n: nat)
      requires Valid() && sh + n < 32
      modifies this
      ensures Valid() && Position() == old(Position()) + n
      ensures sh == old(sh) + n && next == old(next)
    {
      if n <= Held() {
        PeekAndFlushHeld(buf, next, Held(), WORD, cache, n);
      } else {
        FlushEmpties(buf, next, Held(), WORD, cache, n);
        EmptyCache(buf, next, WORD, 0);
      }
      cache := Low(Shl(cache, n), WORD);
      sh := sh + n;
    }

    /** CHECK_BITS. */
    method Check()
      requires Valid() && (sh >= 0 ==> next + sh / 8 < |buf|)
      modifies this
      ensures Valid() && Position() == old(Position()) && sh < 0
    {
      hide Shl, Shr, Low, BitsAt, BitAt;
      while sh >= 0
        invariant Valid() && Position() == old(Position())
        invariant sh >= 0 ==> next + sh / 8 < |buf|
        decreases sh
      {
        if sh <= 24 {
          RefillKeeps(buf, next, Held(), WORD, cache);
        } else {
          RefillOverrun(buf, next, sh - 24, WORD);
          EmptyCache(buf, next, WORD, cache);
        }
        cache := BitOr(cache, Low(Shl(buf[next], sh), WORD));
        next := next + 1;
        sh := sh - 8;
      }
    }
  }

  function BigEndian(b0: nat, b1: nat, b2: nat, b3: nat): nat {
    ((b0 * 256 + b1) * 256 + b2) * 256 + b3
  }

  lemma NextByte(buf: seq<Byte>, k: nat, n: nat)
    requires k + n < |buf|
    ensures BitsAt(buf, 8 * k, 8 * n + 8) == 256 * BitsAt(buf, 8 * k, 8 * n) + buf[k + n]
  {
    hide Shl, Shr, Low, BitsAt, BitAt;
    TrailingBits(buf, k + n, 8);
    BitsConcatenate(buf, 8 * k, 8 * n, 8);
    ShlByByte(BitsAt(buf, 8 * k, 8 * n));
  }

  lemma FirstWord(buf: seq<Byte>, k: nat)
    requires k + 4 <= |buf|
    ensures BitsAt(buf, 8 * k, 32) == BigEndian(buf[k], buf[k + 1], buf[k + 2], buf[k + 3])
  {
    TrailingBits(buf, k, 8);
    NextByte(buf, k, 1);
    NextByte(buf, k, 2);
    NextByte(buf, k, 3);
  }
}
