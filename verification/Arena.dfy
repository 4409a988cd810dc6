/** The bump allocator of the "virtual machine": a fixed arena that wraps to its start when it is full. */
module Arena {

  const ARENA_SIZE: nat := 1024 * 1024

  /** size_t is 64 bits wide. */
  const SIZE_T: nat := 0x1_0000_0000_0000_0000

  /** `(size + 7) & ~7` on a size_t. */
  function Rounded(size: nat): (r: nat)
    ensures r % 8 == 0
  {
    var s := (size + 7) % SIZE_T;
    s - s % 8
  }

  /** Where a block of a rounded size goes when the arena is filled up to `offset`. */
  function Place(offset: nat, rounded: nat): nat {
    if (offset + rounded) % SIZE_T > ARENA_SIZE then 0 else offset
  }

  class MemoryArena {
    var offset: nat

    ghost predicate Valid()
      reads this
    {
      offset <= ARENA_SIZE && offset % 8 == 0
    }

    constructor ()
      ensures Valid() && offset == 0
    {
      offset := 0;
    }

    /** AutumnVM_Alloc; the result is the index of the block in the arena. */
    method Alloc(size: nat) returns (p: nat)
      requires Valid() && size < SIZE_T
      modifies this
      ensures p == Place(old(offset), Rounded(size)) && p % 8 == 0 && offset == (p + Rounded(size)) % SIZE_T
      ensures p + size <= ARENA_SIZE <==> size <= ARENA_SIZE
      ensures size <= 1_048_576 ==>
                var rounded := (size + 7) / 8 * 8;
                p == (if old(offset) + rounded > 1_048_576 then 0 else old(offset)) && offset == p + rounded
      ensures size <= ARENA_SIZE ==> Valid() && offset == p + Rounded(size) && p + Rounded(size) <= ARENA_SIZE
    {
      hide Rounded;
      RoundedIs(size);
      RoundedCovers(size);
      RoundedIsSize(size);
      PlaceIsInside(offset, Rounded(size));
      var rounded := Rounded(size);
      if (offset + rounded) % SIZE_T > ARENA_SIZE {
        offset := 0;
      }
      p := offset;
      offset := (offset + rounded) % SIZE_T;
    }
  }

  /** The rounded size covers the request, by less than 8 bytes, exactly when the addition does not wrap. */
  lemma RoundedCovers(size: nat)
    requires size < SIZE_T
    ensures size <= Rounded(size) < size + 8 <==> size + 7 < 0x1_0000_0000_0000_0000
    ensures size <= ARENA_SIZE ==> Rounded(size) <= ARENA_SIZE
  {}

  lemma RoundedIs(size: nat)
    ensures size <= 1_048_576 ==> Rounded(size) == (size + 7) / 8 * 8
  {}

  /** A rounded size fits the arena if and only if the size does, unless the addition wrapped to 0. */
  lemma RoundedIsSize(size: nat)
    requires size < SIZE_T
    ensures Rounded(size) <= SIZE_T - 8
    ensures size > ARENA_SIZE ==> Rounded(size) > ARENA_SIZE || Rounded(size) == 0
  {}

  lemma PlaceIsInside(offset: nat, rounded: nat)
    requires offset <= ARENA_SIZE && offset % 8 == 0 && rounded % 8 == 0 && rounded < SIZE_T
    ensures Place(offset, rounded) % 8 == 0
    ensures rounded <= ARENA_SIZE ==>
      (Place(offset, rounded) + rounded) % SIZE_T == Place(offset, rounded) + rounded <= ARENA_SIZE
  {}

  // ---------------------------------------------------------------- runs

  predicate Fits(rounded: nat) { rounded % 8 == 0 && rounded <= ARENA_SIZE }

  predicate AllFit(sizes: seq<nat>) { forall k :: 0 <= k < |sizes| ==> Fits(sizes[k]) }

  /** The fill level after allocating blocks of the given rounded sizes. */
  function OffsetAfter(offset: nat, sizes: seq<nat>): nat {
    if sizes == [] then offset else
    var last := |sizes| - 1;
    var before := OffsetAfter(offset, sizes[..last]);
    Place(before, sizes[last]) + sizes[last]
  }

  /** The position of the k-th of these blocks. */
  function PositionOf(offset: nat, sizes: seq<nat>, k: nat): nat
    requires k < |sizes|
  {
    Place(OffsetAfter(offset, sizes[..k]), sizes[k])
  }

  function Sum(sizes: seq<nat>): nat {
    if sizes == [] then 0 else Sum(sizes[..|sizes| - 1]) + sizes[|sizes| - 1]
  }

  predicate AtMost(sizes: seq<nat>, m: nat) { forall k :: 0 <= k < |sizes| ==> sizes[k] <= m }

  lemma RunStep(offset: nat, sizes: seq<nat>, k: nat)
    requires k < |sizes|
    ensures OffsetAfter(offset, sizes[..k + 1]) == PositionOf(offset, sizes, k) + sizes[k]
    ensures Sum(sizes[..k + 1]) == Sum(sizes[..k]) + sizes[k]
  {
    assert sizes[..k + 1][..k] == sizes[..k];
  }

  /** Every block of a run is aligned and inside the arena, and so is the fill level after it. */
  lemma {:induction false} BlocksInBounds(offset: nat, sizes: seq<nat>, k: nat)
    requires offset <= ARENA_SIZE && offset % 8 == 0 && AllFit(sizes) && k <= |sizes|
    ensures OffsetAfter(offset, sizes[..k]) <= ARENA_SIZE && OffsetAfter(offset, sizes[..k]) % 8 == 0
    ensures k < |sizes| ==>
              PositionOf(offset, sizes, k) % 8 == 0 && PositionOf(offset, sizes, k) + sizes[k] <= ARENA_SIZE
  {
    hide OffsetAfter, Sum;
    if k > 0 {
      BlocksInBounds(offset, sizes, k - 1);
      RunStep(offset, sizes, k - 1);
      assert Fits(sizes[k - 1]);
    } else {
      RunStart(offset, sizes);
    }
    if k < |sizes| {
      assert Fits(sizes[k]);
    }
  }

  lemma RunStart(offset: nat, sizes: seq<nat>)
    ensures OffsetAfter(offset, sizes[..0]) == offset && Sum(sizes[..0]) == 0
  {}

  /**
   * The fill level is behind the block, having moved by the total, or wrapped, and then no further than that allows.
   */
  predicate Level(end: nat, m: nat, o: nat, total: nat) {
    o == end + total <= ARENA_SIZE || o + ARENA_SIZE + 8 <= end + total + m
  }

  lemma LevelStep(end: nat, m: nat, o: nat, total: nat, size: nat)
    requires Level(end, m, o, total) && o <= ARENA_SIZE && o % 8 == 0 && Fits(size) && size <= m
    requires total + size + m <= 2 * ARENA_SIZE && end <= ARENA_SIZE && end + total + size + m <= 2 * ARENA_SIZE + 8
    ensures Level(end, m, Place(o, size) + size, total + size)
  {
    if o + size > ARENA_SIZE {
      var (i, j) := (o / 8, size / 8);
      assert o == 8 * i && size == 8 * j;
    }
  }

  /** Where the fill level is after the first `k` later allocations, when the last block is [p, p + s). */
  lemma {:induction false} LevelAfter(p: nat, s: nat, sizes: seq<nat>, m: nat, k: nat)
    requires p % 8 == 0 && s % 8 == 0 && p + s <= ARENA_SIZE && AllFit(sizes) && AtMost(sizes, m) && k <= |sizes|
    requires Sum(sizes) + m + s <= ARENA_SIZE + 8
    ensures Sum(sizes[..k]) <= Sum(sizes) && Level(p + s, m, OffsetAfter(p + s, sizes[..k]), Sum(sizes[..k]))
  {
    hide OffsetAfter, Sum, Level, Place;
    SumOfPrefix(sizes, k);
    if k > 0 {
      LevelAfter(p, s, sizes, m, k - 1);
      BlocksInBounds(p + s, sizes, k - 1);
      RunStep(p + s, sizes, k - 1);
      assert Fits(sizes[k - 1]) && sizes[k - 1] <= m;
      LevelStep(p + s, m, OffsetAfter(p + s, sizes[..k - 1]), Sum(sizes[..k - 1]), sizes[k - 1]);
    } else {
      RunStart(p + s, sizes);
      LevelStarts(p + s, m);
    }
  }

  lemma LevelStarts(end: nat, m: nat)
    requires end <= ARENA_SIZE
    ensures Level(end, m, end, 0)
  {}

  /**
   * Survival: a block of size s is not touched by later allocations of total T and largest size m as long as
   * T + m + s <= ARENA_SIZE + 8, whether or not the arena wraps in between.
   */
  lemma BlockSurvives(p: nat, s: nat, sizes: seq<nat>, m: nat, k: nat)
    requires p % 8 == 0 && s % 8 == 0 && p + s <= ARENA_SIZE && AllFit(sizes) && AtMost(sizes, m) && k < |sizes|
    requires Sum(sizes) + m + s <= ARENA_SIZE + 8
    ensures var q := PositionOf(p + s, sizes, k); q + sizes[k] <= p || p + s <= q
  {
    hide OffsetAfter, Sum;
    LevelAfter(p, s, sizes, m, k);
    LevelAfter(p, s, sizes, m, k + 1);
    RunStep(p + s, sizes, k);
  }

  lemma {:induction false} SumOfPrefix(sizes: seq<nat>, k: nat)
    requires k <= |sizes|
    ensures Sum(sizes[..k]) <= Sum(sizes)
    decreases |sizes|
  {
    if k < |sizes| {
      SumOfPrefix(sizes[..|sizes| - 1], k);
      assert sizes[..|sizes| - 1][..k] == sizes[..k];
    } else {
      assert sizes[..k] == sizes;
    }
  }

  // ---------------------------------------------------------------- the exact bound

  /** The k-th block allocated behind a block of `s` bytes that ends at `end` does not touch it. */
  predicate Apart(end: nat, s: nat, sizes: seq<nat>, k: nat)
    requires k < |sizes| && s <= end
  {
    PositionOf(end, sizes, k) + sizes[k] <= end - s || end <= PositionOf(end, sizes, k)
  }

  /** No run of blocks of at most `m` bytes and `total` in all touches a block of `s` bytes, wherever it lies. */
  ghost predicate Safe(s: nat, m: nat, total: nat) {
    forall end: nat, sizes: seq<nat>, k: nat ::
      (s <= end <= ARENA_SIZE && (end - s) % 8 == 0 && AllFit(sizes) && AtMost(sizes, m) && Sum(sizes) == total &&
       k < |sizes|) ==> Apart(end, s, sizes, k)
  }

  /** The largest block that can be put to use against one of `s` bytes: half of what the arena has beside it. */
  function Half(s: nat): nat
    requires s <= ARENA_SIZE
  {
    (ARENA_SIZE + 16 - s) / 16 * 8
  }

  function Reach(s: nat, m: nat): nat
    requires s <= ARENA_SIZE
  {
    if m <= Half(s) then m else Half(s)
  }

  lemma {:induction false} EachAtMostSum(sizes: seq<nat>)
    ensures AtMost(sizes, Sum(sizes))
    decreases |sizes|
  {
    if sizes != [] {
      EachAtMostSum(sizes[..|sizes| - 1]);
      forall k | 0 <= k < |sizes| ensures sizes[k] <= Sum(sizes) {
        assert k < |sizes| - 1 ==> sizes[..|sizes| - 1][k] == sizes[k];
      }
    }
  }

  lemma {:induction false} SumAdds(a: seq<nat>, b: seq<nat>)
    ensures Sum(a + b) == Sum(a) + Sum(b)
    decreases |b|
  {
    if b == [] {
      assert a + b == a;
    } else {
      SumAdds(a, b[..|b| - 1]);
      assert (a + b)[..|a + b| - 1] == a + b[..|b| - 1];
    }
  }

  function Eights(n: nat): (sizes: seq<nat>)
    ensures |sizes| == n && AllFit(sizes) && forall k :: 0 <= k < n ==> sizes[k] == 8
  {
    seq(n, _ => 8)
  }

  /** Blocks of eight bytes fill the arena step by step. */
  lemma {:induction false} FillWithEights(offset: nat, n: nat)
    ensures Sum(Eights(n)) == 8 * n
    ensures offset + 8 * n <= ARENA_SIZE ==> OffsetAfter(offset, Eights(n)) == offset + 8 * n
  {
    if n > 0 {
      FillWithEights(offset, n - 1);
      assert Eights(n)[..n - 1] == Eights(n - 1);
    }
  }

  /** A run that overwrites a block: fill up, wrap with a block of `r` bytes, and go on. */
  function Overwriting(before: nat, r: nat, after: nat): seq<nat> { Eights(before) + [r] + Eights(after) }

  /** It does so to a block of `s` bytes that ends at r - 8 + s. */
  lemma OverwritingOverwrites(s: nat, before: nat, r: nat, after: nat)
    requires r % 8 == 0 && 8 <= s && 8 <= r && 8 * before == ARENA_SIZE + 16 - 2 * r - s
    ensures var sizes := Overwriting(before, r, after);
      AllFit(sizes) && AtMost(sizes, r) && Sum(sizes) == 8 * before + r + 8 * after &&
      r - 8 + s <= ARENA_SIZE && !Apart(r - 8 + s, s, sizes, before)
  {
    hide OffsetAfter, Sum;
    var sizes := Overwriting(before, r, after);
    FillWithEights(r - 8 + s, before);
    FillWithEights(0, after);
    SumAdds(Eights(before), [r]);
    SumAdds(Eights(before) + [r], Eights(after));
    SumOfOne(r);
    assert sizes[..before] == Eights(before);
  }

  lemma SumOfOne(r: nat)
    ensures Sum([r]) == r
  {
    assert [r][..0] == [];
  }

  lemma HalfFits(s: nat)
    requires s % 8 == 0 && 8 <= s <= ARENA_SIZE
    ensures Half(s) % 8 == 0 && 8 <= Half(s) && 2 * Half(s) + s <= ARENA_SIZE + 16 <= 2 * Half(s) + s + 8
  {}

  /** The numbers of eight-byte blocks that fill up and go on. */
  lemma Eighths(s: nat, r: nat, total: nat) returns (before: nat, after: nat)
    requires s % 8 == r % 8 == total % 8 == 0 && 2 * r + s <= ARENA_SIZE + 16 <= total + r + s
    ensures 8 * before == ARENA_SIZE + 16 - 2 * r - s && 8 * after == total + r + s - ARENA_SIZE - 16
  {
    var (i, j, k) := (s / 8, r / 8, total / 8);
    assert s == 8 * i && r == 8 * j && total == 8 * k;
    before, after := ARENA_SIZE / 8 + 2 - 2 * j - i, k + j + i - ARENA_SIZE / 8 - 2;
  }

  lemma ReachFits(s: nat, m: nat)
    requires s % 8 == m % 8 == 0 && 8 <= s <= ARENA_SIZE && 8 <= m
    ensures Reach(s, m) % 8 == 0 && 8 <= Reach(s, m) <= m && 2 * Reach(s, m) + s <= ARENA_SIZE + 16
  {
    hide Half;
    HalfFits(s);
  }

  lemma StepsOfEight(total: nat, r: nat, s: nat)
    requires s % 8 == r % 8 == total % 8 == 0 && total + r + s > ARENA_SIZE + 8
    ensures total + r + s >= ARENA_SIZE + 16
  {
    var (i, j, k) := (s / 8, r / 8, total / 8);
    assert s == 8 * i && r == 8 * j && total == 8 * k;
  }

  lemma ShortRunsStayBelow(s: nat, m: nat, sizes: seq<nat>)
    requires s % 8 == 0 && 8 <= s <= ARENA_SIZE && AtMost(sizes, m) && Sum(sizes) + Reach(s, m) + s <= ARENA_SIZE + 8
    ensures AtMost(sizes, Reach(s, m))
  {
    hide Half, Sum;
    HalfFits(s);
    EachAtMostSum(sizes);
  }

  /**
   * Survival, exactly: blocks of at most `m` bytes and `total` in all leave every block of `s` bytes alone if and
   * only if total + m + s <= ARENA_SIZE + 8, where beyond half of the arena beside the block a larger `m` makes no
   * difference.
   */
  lemma SafeIff(s: nat, m: nat, total: nat)
    requires s % 8 == m % 8 == total % 8 == 0 && 8 <= s <= ARENA_SIZE && 8 <= m
    ensures Safe(s, m, total) <==> total + Reach(s, m) + s <= ARENA_SIZE + 8
  {
    hide PositionOf, Sum, Half, Apart, Reach;
    ReachFits(s, m);
    var r := Reach(s, m);
    if total + r + s <= ARENA_SIZE + 8 {
      forall end: nat, sizes: seq<nat>, k: nat
        | s <= end <= ARENA_SIZE && (end - s) % 8 == 0 && AllFit(sizes) && AtMost(sizes, m) && Sum(sizes) == total &&
          k < |sizes|
        ensures Apart(end, s, sizes, k)
      {
        ShortRunsStayBelow(s, m, sizes);
        StaysApart(end, s, sizes, r, k);
      }
    } else {
      StepsOfEight(total, r, s);
      var before, after := Eighths(s, r, total);
      OverwritingOverwrites(s, before, r, after);
      UnsafeBy(s, m, total, r - 8 + s, Overwriting(before, r, after), before, r);
    }
  }

  lemma UnsafeBy(s: nat, m: nat, total: nat, end: nat, sizes: seq<nat>, k: nat, r: nat)
    requires s <= end <= ARENA_SIZE && (end - s) % 8 == 0 && AllFit(sizes) && AtMost(sizes, r) && r <= m
    requires Sum(sizes) == total && k < |sizes| && !Apart(end, s, sizes, k)
    ensures !Safe(s, m, total)
  {
    hide Apart, Sum;
    assert AtMost(sizes, m);
  }

  lemma StaysApart(end: nat, s: nat, sizes: seq<nat>, r: nat, k: nat)
    requires s % 8 == 0 && s <= end <= ARENA_SIZE && (end - s) % 8 == 0 && AllFit(sizes) && AtMost(sizes, r)
    requires k < |sizes| && Sum(sizes) + r + s <= ARENA_SIZE + 8
    ensures Apart(end, s, sizes, k)
  {
    hide PositionOf, Sum;
    BlockSurvives(end - s, s, sizes, r, k);
  }
}
