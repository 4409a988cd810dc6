/** L3_reorder: the three windows of each short-block band, stored one after the other, are interleaved in place. */
module Reorder {

  /** The widths of the bands: every third entry of a scale factor band table up to its terminating zero. */
  function Widths(sfb: seq<nat>): seq<nat> {
    if |sfb| == 0 || sfb[0] == 0 then [] else
    [sfb[0]] + if |sfb| < 3 then [] else Widths(sfb[3..])
  }

  /** A table read in steps of three meets its zero. */
  predicate Terminated(sfb: seq<nat>) {
    |sfb| > 0 && (sfb[0] == 0 || (|sfb| >= 3 && Terminated(sfb[3..])))
  }

  function Total(widths: seq<nat>): nat {
    if widths == [] then 0 else 3 * widths[0] + Total(widths[1..])
  }

  /** Where window `k` of a band of width `len` starts. */
  function WindowStart(len: nat, k: nat): nat
    requires k < 3
  {
    if k == 0 then 0 else if k == 1 then len else 2 * len
  }

  /** The first `n` triples of a band of width `len`. */
  function Interleave<T>(s: seq<T>, len: nat, n: nat): (r: seq<T>)
    requires n <= len && 3 * len <= |s|
    ensures |r| == 3 * n
  {
    if n == 0 then [] else Interleave(s, len, n - 1) + [s[n - 1], s[len + n - 1], s[2 * len + n - 1]]
  }

  /** The result: each band interleaved, what lies behind the last band untouched. */
  function Reordered<T>(s: seq<T>, widths: seq<nat>): (r: seq<T>)
    requires Total(widths) <= |s|
    ensures |r| == |s|
    decreases |widths|
  {
    if widths == [] then s else
    var w := 3 * widths[0];
    Interleave(s, widths[0], widths[0]) + Reordered(s[w..], widths[1..])
  }

  lemma {:induction false} InterleaveAt<T>(s: seq<T>, len: nat, n: nat, i: nat, k: nat)
    requires n <= len && 3 * len <= |s| && i < n && k < 3
    ensures Interleave(s, len, n)[3 * i + k] == s[WindowStart(len, k) + i]
  {
    if i < n - 1 {
      InterleaveAt(s, len, n - 1, i, k);
    }
  }

  /** The offset of band `j`. */
  function Base(widths: seq<nat>, j: nat): nat
    requires j <= |widths|
  {
    if j == 0 then 0 else 3 * widths[0] + Base(widths[1..], j - 1)
  }

  /** In band `j`, sample `i` of window `k` moves from base + k * len + i to base + 3 * i + k. */
  lemma {:induction false} ReorderedAt<T>(s: seq<T>, widths: seq<nat>, j: nat, i: nat, k: nat)
    requires Total(widths) <= |s| && j < |widths| && i < widths[j] && k < 3
    ensures Base(widths, j) + 3 * widths[j] <= Total(widths)
    ensures Reordered(s, widths)[Base(widths, j) + 3 * i + k] == s[Base(widths, j) + WindowStart(widths[j], k) + i]
    decreases |widths|
  {
    hide Interleave;
    if j == 0 {
      InterleaveAt(s, widths[0], widths[0], i, k);
    } else {
      ReorderedAt(s[3 * widths[0]..], widths[1..], j - 1, i, k);
    }
  }

  /** What lies behind the last band stays where it is. */
  lemma {:induction false} ReorderedTail<T>(s: seq<T>, widths: seq<nat>)
    requires Total(widths) <= |s|
    ensures Reordered(s, widths)[Total(widths)..] == s[Total(widths)..]
    decreases |widths|
  {
    if widths != [] {
      var w := 3 * widths[0];
      ReorderedTail(s[w..], widths[1..]);
      var rest := Reordered(s[w..], widths[1..]);
      assert Reordered(s, widths)[Total(widths)..] == rest[Total(widths[1..])..];
    }
  }

  ghost function Bag<T>(s: seq<T>, lo: nat, n: nat): multiset<T>
    requires lo + n <= |s|
  {
    multiset(s[lo..lo + n])
  }

  lemma BagGrows<T>(s: seq<T>, lo: nat, n: nat)
    requires lo + n < |s|
    ensures Bag(s, lo, n + 1) == Bag(s, lo, n) + multiset{s[lo + n]}
  {
    assert s[lo..lo + n + 1] == s[lo..lo + n] + [s[lo + n]];
  }

  lemma BagJoins<T>(s: seq<T>, lo: nat, m: nat, n: nat)
    requires lo + m + n <= |s|
    ensures Bag(s, lo, m + n) == Bag(s, lo, m) + Bag(s, lo + m, n)
  {
    assert s[lo..lo + (m + n)] == s[lo..lo + m] + s[lo + m..lo + m + n];
  }

  lemma InterleaveGrows<T>(s: seq<T>, len: nat, n: nat)
    requires n < len && 3 * len <= |s|
    ensures multiset(Interleave(s, len, n + 1))
         == multiset(Interleave(s, len, n)) + multiset{s[n]} + multiset{s[len + n]} + multiset{s[2 * len + n]}
  {
    assert Interleave(s, len, n + 1) == Interleave(s, len, n) + [s[n], s[len + n], s[2 * len + n]];
  }

  ghost function ThreeBags<T>(s: seq<T>, len: nat, n: nat): multiset<T>
    requires n <= len && 3 * len <= |s|
  {
    Bag(s, 0, n) + Bag(s, len, n) + Bag(s, 2 * len, n)
  }

  lemma ThreeBagsGrow<T>(s: seq<T>, len: nat, n: nat)
    requires n < len && 3 * len <= |s|
    ensures ThreeBags(s, len, n + 1)
         == ThreeBags(s, len, n) + multiset{s[n]} + multiset{s[len + n]} + multiset{s[2 * len + n]}
  {
    hide Bag;
    BagGrows(s, 0, n);
    BagGrows(s, len, n);
    BagGrows(s, 2 * len, n);
    AddThree(Bag(s, 0, n), Bag(s, len, n), Bag(s, 2 * len, n), s[n], s[len + n], s[2 * len + n]);
  }

  lemma {:induction false} SameInBand<T>(s: seq<T>, len: nat, n: nat)
    requires n <= len && 3 * len <= |s|
    ensures multiset(Interleave(s, len, n)) == ThreeBags(s, len, n)
  {
    hide Bag, ThreeBags, Interleave;
    if n > 0 {
      SameInBand(s, len, n - 1);
      InterleaveGrows(s, len, n - 1);
      ThreeBagsGrow(s, len, n - 1);
    } else {
      EmptyBags(s, len);
    }
  }

  lemma AddThree<T>(x: multiset<T>, y: multiset<T>, z: multiset<T>, a: T, b: T, c: T)
    ensures x + y + z + multiset{a} + multiset{b} + multiset{c}
      == (x + multiset{a}) + (y + multiset{b}) + (z + multiset{c})
  {}

  lemma EmptyBags<T>(s: seq<T>, len: nat)
    requires 3 * len <= |s|
    ensures ThreeBags(s, len, 0) == multiset{} == multiset(Interleave(s, len, 0))
  {}

  lemma BandBag<T>(s: seq<T>, len: nat)
    requires 3 * len <= |s|
    ensures multiset(Interleave(s, len, len)) == Bag(s, 0, 3 * len)
  {
    hide Bag, Interleave;
    SameInBand(s, len, len);
    BagJoins(s, 0, len, len);
    BagJoins(s, 0, 2 * len, len);
  }

  lemma MultisetOfTwo<T>(a: seq<T>, b: seq<T>)
    ensures multiset(a + b) == multiset(a) + multiset(b)
  {}

  /** The same samples, each as often as before. */
  lemma {:induction false} SameSamples<T>(s: seq<T>, widths: seq<nat>)
    requires Total(widths) <= |s|
    ensures multiset(Reordered(s, widths)) == multiset(s)
    decreases |widths|
  {
    hide Interleave;
    if widths != [] {
      var w := 3 * widths[0];
      BandBag(s, widths[0]);
      SameSamples(s[w..], widths[1..]);
      MultisetOfTwo(Interleave(s, widths[0], widths[0]), Reordered(s[w..], widths[1..]));
      MultisetOfTwo(s[0..w], s[w..]);
      assert s == s[0..w] + s[w..];
    }
  }

  /** The inverse of a band: window `k` is every third sample from `k` on. */
  function Window<T>(s: seq<T>, k: nat, n: nat): (r: seq<T>)
    requires k < 3 && 3 * n <= |s|
    ensures |r| == n
  {
    if n == 0 then [] else Window(s, k, n - 1) + [s[3 * (n - 1) + k]]
  }

  function Restored<T>(s: seq<T>, widths: seq<nat>): (r: seq<T>)
    requires Total(widths) <= |s|
    ensures |r| == |s|
    decreases |widths|
  {
    if widths == [] then s else
    var len := widths[0];
    Window(s, 0, len) + Window(s, 1, len) + Window(s, 2, len) + Restored(s[3 * len..], widths[1..])
  }

  lemma {:induction false} WindowOfInterleaved<T>(s: seq<T>, len: nat, r: seq<T>, k: nat, n: nat)
    requires n <= len && 3 * len <= |s| && |r| >= 3 * len && r[..3 * len] == Interleave(s, len, len) && k < 3
    ensures var w := WindowStart(len, k); w + n <= |s| && Window(r, k, n) == s[w..w + n]
  {
    hide Interleave;
    if n > 0 {
      WindowOfInterleaved(s, len, r, k, n - 1);
      InterleaveAt(s, len, len, n - 1, k);
      var w := WindowStart(len, k);
      assert r[3 * (n - 1) + k] == r[..3 * len][3 * (n - 1) + k];
      assert s[w..w + n] == s[w..w + (n - 1)] + [s[w + (n - 1)]];
    }
  }

  lemma BandIsUndone<T>(s: seq<T>, len: nat, r: seq<T>)
    requires 3 * len <= |s| && |r| >= 3 * len && r[..3 * len] == Interleave(s, len, len)
    ensures Window(r, 0, len) + Window(r, 1, len) + Window(r, 2, len) == s[..3 * len]
  {
    hide Interleave, Window;
    WindowOfInterleaved(s, len, r, 0, len);
    WindowOfInterleaved(s, len, r, 1, len);
    WindowOfInterleaved(s, len, r, 2, len);
  }

  /** Nothing is lost: the reordering is undone by taking the windows apart again. */
  lemma {:induction false} ReorderIsUndone<T>(s: seq<T>, widths: seq<nat>)
    requires Total(widths) <= |s|
    ensures Restored(Reordered(s, widths), widths) == s
    decreases |widths|
  {
    hide Interleave, Window;
    if widths != [] {
      var w, r := 3 * widths[0], Reordered(s, widths);
      assert r[..w] == Interleave(s, widths[0], widths[0]);
      assert r[w..] == Reordered(s[w..], widths[1..]);
      BandIsUndone(s, widths[0], r);
      ReorderIsUndone(s[w..], widths[1..]);
      assert s == s[..w] + s[w..];
    }
  }

  /** The inner loop of L3_reorder. */
  method InterleaveBand<T>(grbuf: array<T>, scratch: array<T>, from: nat, len: nat)
    requires grbuf != scratch && from + 3 * len <= grbuf.Length && from + 3 * len <= scratch.Length
    modifies scratch
    ensures scratch[..from + 3 * len] == old(scratch[..from]) + Interleave(grbuf[from..], len, len)
    ensures scratch[from + 3 * len..] == old(scratch[from + 3 * len..])
  {
    var i, src, dst := 0, from, from;
    while i < len
      invariant i <= len && src == from + i && dst == from + 3 * i
      invariant scratch[..dst] == old(scratch[..from]) + Interleave(grbuf[from..], len, i)
      invariant scratch[from + 3 * len..] == old(scratch[from + 3 * len..])
    {
      scratch[dst], scratch[dst + 1], scratch[dst + 2] := grbuf[src], grbuf[src + len], grbuf[src + 2 * len];
      dst := dst + 3;
      src := src + 1;
      i := i + 1;
    }
  }

  /** L3_reorder; every read and write lies within the bands. */
  method ReorderInPlace<T>(grbuf: array<T>, scratch: array<T>, sfb: seq<nat>)
    requires grbuf != scratch && Terminated(sfb) && Total(Widths(sfb)) <= grbuf.Length &&
      Total(Widths(sfb)) <= scratch.Length
    modifies grbuf, scratch
    ensures grbuf[..] == Reordered(old(grbuf[..]), Widths(sfb))
    ensures scratch[Total(Widths(sfb))..] == old(scratch[Total(Widths(sfb))..])
  {
    hide Interleave, Reordered, Widths;
    var p, dst: nat := 0, 0;
    ghost var s, widths := grbuf[..], Widths(sfb);
    assert sfb[0..] == sfb && s[0..] == s;
    while sfb[p] != 0
      invariant p < |sfb| && Terminated(sfb[p..])
      invariant dst + Total(Widths(sfb[p..])) == Total(widths)
      invariant grbuf[..] == s && scratch[Total(widths)..] == old(scratch[Total(widths)..])
      invariant Reordered(s, widths) == scratch[..dst] + Reordered(s[dst..], Widths(sfb[p..]))
      decreases |sfb| - p
    {
      ghost var before, after := scratch[..dst], scratch[Total(widths)..];
      NextBand(s, sfb, p, dst);
      InterleaveBand(grbuf, scratch, dst, sfb[p]);
      assert scratch[Total(widths)..] == after;
      Regroup(before, Interleave(s[dst..], sfb[p], sfb[p]), Reordered(s[dst + 3 * sfb[p]..], Widths(sfb[p + 3..])));
      p, dst := p + 3, dst + 3 * sfb[p];
    }
    LastBand(s, sfb, p, dst);
    forall k | 0 <= k < dst {
      grbuf[k] := scratch[k];
    }
  }

  lemma NextBand<T>(s: seq<T>, sfb: seq<nat>, p: nat, dst: nat)
    requires p < |sfb| && sfb[p] != 0 && Terminated(sfb[p..]) && dst + Total(Widths(sfb[p..])) <= |s|
    ensures p + 3 < |sfb| && Terminated(sfb[p + 3..])
    ensures Total(Widths(sfb[p..])) == 3 * sfb[p] + Total(Widths(sfb[p + 3..]))
    ensures Reordered(s[dst..], Widths(sfb[p..]))
         == Interleave(s[dst..], sfb[p], sfb[p]) + Reordered(s[dst + 3 * sfb[p]..], Widths(sfb[p + 3..]))
  {
    hide Interleave;
    assert sfb[p..][3..] == sfb[p + 3..];
    assert Widths(sfb[p..]) == [sfb[p]] + Widths(sfb[p + 3..]);
    assert s[dst..][3 * sfb[p]..] == s[dst + 3 * sfb[p]..];
  }

  lemma LastBand<T>(s: seq<T>, sfb: seq<nat>, p: nat, dst: nat)
    requires p < |sfb| && sfb[p] == 0 && dst <= |s|
    ensures Widths(sfb[p..]) == [] && Total([]) == 0 && Reordered(s[dst..], []) == s[dst..]
  {}

  lemma Regroup<T>(a: seq<T>, b: seq<T>, c: seq<T>)
    ensures a + (b + c) == (a + b) + c
  {}
}
