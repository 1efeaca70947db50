/** The chunk-range codec of src/transfers/fs.rs. */
module RangesWire {
  import opened Types
  import opened Encoding
  import opened ChunkRanges

  // ---------------------------------------------------------------- encoding

  /** The boundaries, pair by pair; a last unpaired one is left out. */
  function PairsBytes(bs: seq<u64>): Bytes {
    if |bs| < 2 then [] else ToLe(bs[0], 8) + ToLe(bs[1], 8) + PairsBytes(bs[2..])
  }

  /** The count field: a `u32`, so it wraps. */
  function WireCount(bs: seq<u64>): u32 {
    |bs| / 2 % 0x1_0000_0000
  }

  lemma OnePair(a: u64, b: u64)
    ensures PairsBytes([a, b]) == ToLe(a, 8) + ToLe(b, 8)
    ensures PairsBytes([]) == []
  {
    assert [a, b][2..] == [];
    assert ToLe(a, 8) + ToLe(b, 8) + [] == ToLe(a, 8) + ToLe(b, 8);
  }

  lemma Reassociate(x: Bytes, y: Bytes, middle: Bytes, a: Bytes, b: Bytes)
    ensures x + y + (middle + a + b) == x + y + middle + a + b
  {
  }

  lemma {:induction false} PairsAppend(bs: seq<u64>, a: u64, b: u64)
    requires |bs| % 2 == 0
    ensures PairsBytes(bs + [a, b]) == PairsBytes(bs) + ToLe(a, 8) + ToLe(b, 8)
  {
    if bs == [] {
      OnePair(a, b);
      assert bs + [a, b] == [a, b];
    } else {
      PairsAppend(bs[2..], a, b);
      assert (bs + [a, b])[2..] == bs[2..] + [a, b];
      Reassociate(ToLe(bs[0], 8), ToLe(bs[1], 8), PairsBytes(bs[2..]), ToLe(a, 8), ToLe(b, 8));
    }
  }

  lemma {:induction false} UnpairedIsDropped(bs: seq<u64>)
    requires |bs| % 2 == 1
    ensures PairsBytes(bs[..|bs| - 1]) == PairsBytes(bs)
  {
    if |bs| > 1 {
      UnpairedIsDropped(bs[2..]);
      assert bs[..|bs| - 1][2..] == bs[2..][..|bs| - 3];
    }
  }

  lemma Regroup(header: Bytes, front: Bytes, a: Bytes, b: Bytes)
    ensures header + front + a + b == header + (front + a + b)
  {
  }

  lemma PairsGrow(bs: seq<u64>, i: nat)
    requires i % 2 == 0 && i + 1 < |bs|
    ensures PairsBytes(bs[..i + 2]) == PairsBytes(bs[..i]) + ToLe(bs[i], 8) + ToLe(bs[i + 1], 8)
  {
    PairsAppend(bs[..i], bs[i], bs[i + 1]);
    assert bs[..i + 2] == bs[..i] + [bs[i], bs[i + 1]];
  }

  lemma SlicesShift(a: Bytes, b: Bytes, rest: Bytes, at: nat)
    requires |a| == 8 && |b| == 8 && at + 16 <= |rest|
    ensures (a + b + rest)[at + 16..at + 24] == rest[at..at + 8]
    ensures (a + b + rest)[at + 24..at + 32] == rest[at + 8..at + 16]
  {
  }

  lemma FirstSlices(a: Bytes, b: Bytes, rest: Bytes)
    requires |a| == 8 && |b| == 8
    ensures (a + b + rest)[..8] == a && (a + b + rest)[8..16] == b
  {
  }

  /** Pair `i` is 16 bytes: its start, then its end. */
  lemma {:induction false} PairBytes(bs: seq<u64>, i: nat)
    requires i < |bs| / 2
    ensures 16 * i + 16 <= |PairsBytes(bs)|
    ensures PairsBytes(bs)[16 * i..16 * i + 8] == ToLe(bs[2 * i], 8)
    ensures PairsBytes(bs)[16 * i + 8..16 * i + 16] == ToLe(bs[2 * i + 1], 8)
  {
    var a, b, rest := ToLe(bs[0], 8), ToLe(bs[1], 8), PairsBytes(bs[2..]);
    assert PairsBytes(bs) == a + b + rest;
    if i == 0 {
      FirstSlices(a, b, rest);
    } else {
      PairBytes(bs[2..], i - 1);
      SlicesShift(a, b, rest, 16 * (i - 1));
      assert bs[2..][2 * (i - 1)] == bs[2 * i] && bs[2..][2 * (i - 1) + 1] == bs[2 * i + 1];
    }
  }

  /** When no pair is left, every whole pair has been written. */
  lemma AllPairsWritten(bs: seq<u64>, i: nat)
    requires i % 2 == 0 && i <= |bs| <= i + 1
    ensures PairsBytes(bs[..i]) == PairsBytes(bs)
  {
    if i == |bs| {
      assert bs[..i] == bs;
    } else {
      UnpairedIsDropped(bs);
    }
  }

  method EncodeRangesWire(boundaries: seq<u64>) returns (out: Bytes)
    ensures out == ToLe(WireCount(boundaries), 4) + PairsBytes(boundaries)
  {
    var pairCount := |boundaries| / 2 % 0x1_0000_0000;
    var header := ToLe(pairCount, 4);
    out := header;
    assert header == header + PairsBytes(boundaries[..0]);
    var i := 0;
    while i + 1 < |boundaries|
      invariant i % 2 == 0 && i <= |boundaries|
      invariant out == header + PairsBytes(boundaries[..i])
    {
      var start, end := ToLe(boundaries[i], 8), ToLe(boundaries[i + 1], 8);
      PairsGrow(boundaries, i);
      Regroup(header, PairsBytes(boundaries[..i]), start, end);
      out := out + start;
      out := out + end;
      i := i + 2;
    }
    AllPairsWritten(boundaries, i);
  }

  // ---------------------------------------------------------------- decoding

  // An entry is two little-endian `u64`s: 16 bytes.

  function EntryStart(raw: Bytes, i: nat): nat
    requires 16 * i + 16 <= |raw|
  {
    FromLe(raw[16 * i..16 * i + 8])
  }

  function EntryEnd(raw: Bytes, i: nat): nat
    requires 16 * i + 16 <= |raw|
  {
    FromLe(raw[16 * i + 8..16 * i + 16])
  }

  function Entries(raw: Bytes, n: nat): (entries: seq<(nat, nat)>)
    requires 16 * n <= |raw|
    ensures |entries| == n
    ensures forall i :: 0 <= i < n ==> entries[i] == (EntryStart(raw, i), EntryEnd(raw, i))
  {
    seq(n, i requires 0 <= i < n => (EntryStart(raw, i), EntryEnd(raw, i)))
  }

  function UnionOfEntries(entries: seq<(nat, nat)>): seq<nat> {
    if entries == [] then []
    else
      var (start, end) := entries[|entries| - 1];
      Merge(Union, UnionOfEntries(entries[..|entries| - 1]), FromRange(start, end), false, false)
  }

  /** The union of the first `n` entries. */
  function UnionOf(raw: Bytes, n: nat): seq<nat>
    requires 16 * n <= |raw|
  {
    UnionOfEntries(Entries(raw, n))
  }

  lemma OneMoreInUnion(raw: Bytes, n: nat)
    requires 16 * n + 16 <= |raw|
    ensures UnionOf(raw, n + 1) ==
            Merge(Union, UnionOf(raw, n), FromRange(EntryStart(raw, n), EntryEnd(raw, n)), false, false)
  {
    assert Entries(raw, n + 1)[..n] == Entries(raw, n);
  }

  /** Decoding fails exactly on too few bytes. */
  method DecodeRangesWire(count: u32, raw: Bytes) returns (result: Result<seq<nat>>)
    ensures result.Ok? <==> |raw| >= 16 * count
    ensures result.Ok? ==> result.value == UnionOf(raw, count)
  {
    var ranges: seq<nat> := [];
    for i := 0 to count
      invariant 16 * i <= |raw|
      invariant ranges == UnionOf(raw, i)
    {
      var base := 16 * i;
      if base + 16 > |raw| {
        return Err(Storage);
      }
      OneMoreInUnion(raw, i);
      var start := FromLe(raw[base..base + 8]);
      var end := FromLe(raw[base + 8..base + 16]);
      ranges := Merge(Union, ranges, FromRange(start, end), false, false);
    }
    result := Ok(ranges);
  }

  predicate InEntry(raw: Bytes, i: nat, x: nat) {
    16 * i + 16 <= |raw| && EntryStart(raw, i) <= x < EntryEnd(raw, i)
  }

  ghost predicate InSomeEntry(raw: Bytes, n: nat, x: nat) {
    exists i :: 0 <= i < n && InEntry(raw, i, x)
  }

  /** Eight bytes from `at` on, least significant first. */
  ghost function U64At(raw: Bytes, at: nat): nat
    requires at + 8 <= |raw|
  {
    (raw[at] as int) + 0x100 * (raw[at + 1] as int) + 0x1_0000 * (raw[at + 2] as int)
    + 0x100_0000 * (raw[at + 3] as int) + 0x1_0000_0000 * (raw[at + 4] as int)
    + 0x100_0000_0000 * (raw[at + 5] as int) + 0x1_0000_0000_0000 * (raw[at + 6] as int)
    + 0x100_0000_0000_0000 * (raw[at + 7] as int)
  }

  /** Entry `i` covers the chunks from the number in its first eight bytes up to that in the next eight. */
  lemma EntryBytes(raw: Bytes, i: nat, x: nat)
    requires 16 * i + 16 <= |raw|
    ensures InEntry(raw, i, x) <==> U64At(raw, 16 * i) <= x < U64At(raw, 16 * i + 8)
  {
    FromLe8(raw[16 * i..16 * i + 8]);
    FromLe8(raw[16 * i + 8..16 * i + 16]);
  }

  lemma NoEntries(raw: Bytes, x: nat)
    ensures UnionOf(raw, 0) == [] && !Contains([], x) && !InSomeEntry(raw, 0, x)
  {
  }

  lemma UnionStep(raw: Bytes, n: nat, x: nat)
    requires n > 0 && 16 * n <= |raw|
    requires Canonical(UnionOf(raw, n - 1))
    ensures Canonical(UnionOf(raw, n))
    ensures Contains(UnionOf(raw, n), x) <==> Contains(UnionOf(raw, n - 1), x) || InEntry(raw, n - 1, x)
  {
    var start, end := EntryStart(raw, n - 1), EntryEnd(raw, n - 1);
    OneMoreInUnion(raw, n - 1);
    OneMoreRange(UnionOf(raw, n - 1), start, end, x);
    assert InEntry(raw, n - 1, x) <==> start <= x < end;
  }

  /**
   A decoded set is the pointwise union of the entries' half-open intervals, in whatever order and however they
   overlap.
   */
  lemma {:induction false} UnionOfMeaning(raw: Bytes, n: nat, x: nat)
    requires 16 * n <= |raw|
    ensures Canonical(UnionOf(raw, n))
    ensures Contains(UnionOf(raw, n), x) <==> InSomeEntry(raw, n, x)
  {
    if n == 0 {
      NoEntries(raw, x);
    } else {
      UnionOfMeaning(raw, n - 1, x);
      UnionStep(raw, n, x);
      OneMoreEntry(raw, n, x);
    }
  }

  lemma OneMoreRange(ranges: seq<nat>, start: nat, end: nat, x: nat)
    requires Canonical(ranges)
    ensures var r := Merge(Union, ranges, FromRange(start, end), false, false);
      Canonical(r) && (Contains(r, x) <==> Contains(ranges, x) || start <= x < end)
  {
    RangeMeaning(start, end, x);
    UnionMeaning(ranges, FromRange(start, end), x);
  }

  lemma OneMoreEntry(raw: Bytes, n: nat, x: nat)
    requires n > 0
    ensures InSomeEntry(raw, n, x) <==> InEntry(raw, n - 1, x) || InSomeEntry(raw, n - 1, x)
  {
  }

  lemma SameEntry(raw: Bytes, extra: Bytes, i: nat)
    requires 16 * i + 16 <= |raw|
    ensures EntryStart(raw + extra, i) == EntryStart(raw, i) && EntryEnd(raw + extra, i) == EntryEnd(raw, i)
  {
    var at := 16 * i;
    assert (raw + extra)[at..at + 8] == raw[at..at + 8];
    assert (raw + extra)[at + 8..at + 16] == raw[at + 8..at + 16];
  }

  /** Bytes after the counted entries do not matter. */
  lemma TrailingBytesIgnored(raw: Bytes, extra: Bytes, n: nat)
    requires 16 * n <= |raw|
    ensures UnionOf(raw + extra, n) == UnionOf(raw, n)
  {
    forall i | 0 <= i < n
      ensures Entries(raw + extra, n)[i] == Entries(raw, n)[i]
    {
      SameEntry(raw, extra, i);
    }
    assert Entries(raw + extra, n) == Entries(raw, n);
  }

  // ---------------------------------------------------------------- round trip

  lemma {:induction false} PairsLength(bs: seq<u64>)
    ensures |PairsBytes(bs)| == 16 * (|bs| / 2)
  {
    if |bs| >= 2 {
      PairsLength(bs[2..]);
    }
  }

  lemma FirstEntry(a: Bytes, b: Bytes, rest: Bytes)
    requires |a| == 8 && |b| == 8
    ensures EntryStart(a + b + rest, 0) == FromLe(a) && EntryEnd(a + b + rest, 0) == FromLe(b)
  {
    assert (a + b + rest)[0..8] == a && (a + b + rest)[8..16] == b;
  }

  lemma LaterEntry(head: Bytes, rest: Bytes, i: nat)
    requires |head| == 16 && 16 * i + 16 <= |rest|
    ensures EntryStart(head + rest, i + 1) == EntryStart(rest, i) && EntryEnd(head + rest, i + 1) == EntryEnd(rest, i)
  {
    var at := 16 * i;
    assert (head + rest)[at + 16..at + 24] == rest[at..at + 8];
    assert (head + rest)[at + 24..at + 32] == rest[at + 8..at + 16];
  }

  lemma {:induction false} EntryIsPair(bs: seq<u64>, i: nat)
    requires i < |bs| / 2
    ensures |PairsBytes(bs)| >= 16 * i + 16
    ensures EntryStart(PairsBytes(bs), i) == bs[2 * i] && EntryEnd(PairsBytes(bs), i) == bs[2 * i + 1]
  {
    PairsLength(bs);
    var a, b, rest := ToLe(bs[0], 8), ToLe(bs[1], 8), PairsBytes(bs[2..]);
    if i == 0 {
      WidthValues();
      LeRoundTrip(bs[0], 8);
      LeRoundTrip(bs[1], 8);
      FirstEntry(a, b, rest);
    } else {
      EntryIsPair(bs[2..], i - 1);
      LaterEntry(a + b, rest, i - 1);
    }
  }

  predicate InPair(bs: seq<nat>, i: nat, x: nat) {
    2 * i + 1 < |bs| && bs[2 * i] <= x < bs[2 * i + 1]
  }

  ghost predicate InSomePair(bs: seq<nat>, n: nat, x: nat) {
    exists i :: 0 <= i < n && InPair(bs, i, x)
  }

  lemma FirstPair(bs: seq<nat>, x: nat)
    requires Canonical(bs) && |bs| >= 2
    ensures Contains(bs, x) <==> InPair(bs, 0, x) || Contains(bs[2..], x)
  {
    var tail := bs[1..];
    assert tail[0] == bs[1] && tail[1..] == bs[2..];
    assert In(tail, true, x) == if x < bs[1] then true else In(bs[2..], false, x);
    if x < bs[1] {
      assert AllFrom(bs[2..], x + 1);
      BelowAll(bs[2..], false, x);
    }
  }

  /** A canonical list of whole pairs denotes the union of its pairs. */
  lemma {:induction false} PairsMeaning(bs: seq<nat>, x: nat)
    requires Canonical(bs) && |bs| % 2 == 0
    ensures Contains(bs, x) <==> InSomePair(bs, |bs| / 2, x)
  {
    if bs != [] {
      var tail := bs[2..];
      PairsMeaning(tail, x);
      FirstPair(bs, x);
      forall i | 0 <= i < |tail| / 2
        ensures InPair(tail, i, x) <==> InPair(bs, i + 1, x)
      {
      }
      if Contains(tail, x) {
        var i :| 0 <= i < |tail| / 2 && InPair(tail, i, x);
        assert InPair(bs, i + 1, x);
      }
      if InSomePair(bs, |bs| / 2, x) {
        var i :| 0 <= i < |bs| / 2 && InPair(bs, i, x);
        assert i > 0 ==> InPair(tail, i - 1, x);
      }
    }
  }

  lemma SameInterval(bs: seq<u64>, front: seq<nat>, n: nat, i: nat, x: nat)
    requires n <= |bs| / 2 && i < n && front == bs[..2 * n]
    ensures InEntry(PairsBytes(bs), i, x) <==> InPair(front, i, x)
  {
    EntryIsPair(bs, i);
    assert front[2 * i] == bs[2 * i] && front[2 * i + 1] == bs[2 * i + 1];
  }

  lemma SameIntervals(bs: seq<u64>, front: seq<nat>, n: nat, x: nat)
    requires n <= |bs| / 2 && front == bs[..2 * n]
    ensures InSomeEntry(PairsBytes(bs), n, x) <==> InSomePair(front, n, x)
  {
    forall i | 0 <= i < n
      ensures InEntry(PairsBytes(bs), i, x) <==> InPair(front, i, x)
    {
      SameInterval(bs, front, n, i, x);
    }
  }

  lemma DecodesAlike(bs: seq<u64>, n: nat, front: seq<nat>, x: nat)
    requires Canonical(bs) && n <= |bs| / 2
    requires 16 * n <= |PairsBytes(bs)|
    requires front == bs[..2 * n] && Canonical(front)
    ensures Contains(UnionOf(PairsBytes(bs), n), x) == Contains(front, x)
  {
    UnionOfMeaning(PairsBytes(bs), n, x);
    SameIntervals(bs, front, n, x);
    EvenHalves(n);
    PairsMeaning(front, x);
  }

  lemma EvenHalves(n: nat)
    ensures 2 * n % 2 == 0 && 2 * n / 2 == n
  {
  }

  /** Decoding the first `n` pairs of an encoded list gives back the boundaries of those pairs. */
  lemma DecodesFirstPairs(bs: seq<u64>, n: nat)
    requires Canonical(bs) && n <= |bs| / 2
    ensures |PairsBytes(bs)| >= 16 * n
    ensures UnionOf(PairsBytes(bs), n) == bs[..2 * n]
  {
    PairsLength(bs);
    PrefixIsCanonical(bs, 2 * n);
    var decoded, front: seq<nat> := UnionOf(PairsBytes(bs), n), bs[..2 * n];
    forall x: nat
      ensures AlikeAt(decoded, front, false, x)
    {
      DecodesAlike(bs, n, front, x);
    }
    UnionOfMeaning(PairsBytes(bs), n, 0);
    CanonicalIsUnique(decoded, front, false);
  }

  lemma CountIsWhole(length: nat)
    ensures 2 * (length / 2 % 0x1_0000_0000) == length <==> length % 2 == 0 && length / 2 < 0x1_0000_0000
    ensures length / 2 % 0x1_0000_0000 <= length / 2
  {
  }

  /**
   The codec gives a set of chunks back exactly when the set is bounded and has fewer than 2^32 ranges:
   otherwise the last boundary, or the ranges beyond the wrapped count, are lost.
   */
  lemma RangesRoundTripIff(bs: seq<u64>)
    requires Canonical(bs)
    ensures 16 * WireCount(bs) <= |PairsBytes(bs)|
    ensures UnionOf(PairsBytes(bs), WireCount(bs)) == bs <==> |bs| % 2 == 0 && |bs| / 2 < 0x1_0000_0000
  {
    CountIsWhole(|bs|);
    var n: nat := WireCount(bs);
    DecodesFirstPairs(bs, n);
    assert bs[..2 * n] == bs <==> 2 * n == |bs|;
  }
}
