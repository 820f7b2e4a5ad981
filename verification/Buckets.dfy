/**
 What a brigade says: buckets as windows onto shared data, the stream of bytes and metadata
 that a sequence of buckets stands for, and what partitioning and sweeping do to it.

 The buckets here are those of known length in memory.
 */
module Buckets {

  datatype BucketType = BucketType(name: string, isMetadata: bool)

  /** data names the block that start and length select from. */
  datatype Bucket = Bucket(btype: BucketType, data: nat, start: nat, length: nat)

  type Memory = map<nat, seq<bv8>>

  /** The window lies inside its block. Metadata is no part of the data, and has no length. */
  ghost predicate InMemory(mem: Memory, b: Bucket) {
    if b.btype.isMetadata then b.length == 0
    else b.data in mem && b.start + b.length <= |mem[b.data]|
  }

  ghost predicate AllInMemory(mem: Memory, bs: seq<Bucket>) {
    forall i :: 0 <= i < |bs| ==> InMemory(mem, bs[i])
  }

  ghost function Content(mem: Memory, b: Bucket): (c: seq<bv8>)
    requires InMemory(mem, b)
    ensures |c| == b.length
  {
    if b.btype.isMetadata then [] else mem[b.data][b.start..b.start + b.length]
  }

  /** One item of the observable stream. */
  datatype Token = Byte(value: bv8) | Mark(btype: BucketType)

  ghost function ByteTokens(c: seq<bv8>): (ts: seq<Token>)
    ensures |ts| == |c| && forall i :: 0 <= i < |c| ==> ts[i] == Byte(c[i])
  {
    seq(|c|, i requires 0 <= i < |c| => Byte(c[i]))
  }

  ghost function Tokens(mem: Memory, b: Bucket): seq<Token>
    requires InMemory(mem, b)
  {
    if b.btype.isMetadata then [Mark(b.btype)] else ByteTokens(Content(mem, b))
  }

  /** The bytes of a brigade, interleaved with its metadata. */
  ghost function Stream(mem: Memory, bs: seq<Bucket>): seq<Token>
    requires AllInMemory(mem, bs)
  {
    if bs == [] then [] else Tokens(mem, bs[0]) + Stream(mem, bs[1..])
  }

  ghost function Bytes(mem: Memory, bs: seq<Bucket>): (s: seq<bv8>)
    requires AllInMemory(mem, bs)
    ensures |s| == Length(bs)
  {
    if bs == [] then [] else Content(mem, bs[0]) + Bytes(mem, bs[1..])
  }

  ghost function Length(bs: seq<Bucket>): nat {
    if bs == [] then 0 else bs[0].length + Length(bs[1..])
  }

  lemma AllConcat(mem: Memory, a: seq<Bucket>, b: seq<Bucket>)
    requires AllInMemory(mem, a) && AllInMemory(mem, b)
    ensures AllInMemory(mem, a + b)
  {
  }

  lemma {:induction false} StreamConcat(mem: Memory, a: seq<Bucket>, b: seq<Bucket>)
    requires AllInMemory(mem, a) && AllInMemory(mem, b)
    ensures AllInMemory(mem, a + b)
    ensures Stream(mem, a + b) == Stream(mem, a) + Stream(mem, b)
  {
    AllConcat(mem, a, b);
    if a == [] {
      assert a + b == b;
    } else {
      assert (a + b)[1..] == a[1..] + b;
      StreamConcat(mem, a[1..], b);
    }
  }

  lemma {:induction false} BytesConcat(mem: Memory, a: seq<Bucket>, b: seq<Bucket>)
    requires AllInMemory(mem, a) && AllInMemory(mem, b)
    ensures AllInMemory(mem, a + b)
    ensures Bytes(mem, a + b) == Bytes(mem, a) + Bytes(mem, b)
  {
    AllConcat(mem, a, b);
    if a == [] {
      assert a + b == b;
    } else {
      assert (a + b)[1..] == a[1..] + b;
      BytesConcat(mem, a[1..], b);
    }
  }

  lemma {:induction false} LengthConcat(a: seq<Bucket>, b: seq<Bucket>)
    ensures Length(a + b) == Length(a) + Length(b)
  {
    if a == [] {
      assert a + b == b;
    } else {
      assert (a + b)[1..] == a[1..] + b;
      LengthConcat(a[1..], b);
    }
  }

  /** A bucket in memory says the bytes of its block from start on, and metadata says none. */
  lemma ContentAt(mem: Memory, b: Bucket, i: nat)
    requires !b.btype.isMetadata && b.data in mem && b.start + b.length <= |mem[b.data]| && i < b.length
    ensures InMemory(mem, b) && Content(mem, b)[i] == mem[b.data][b.start + i]
  {
  }

  /** The bytes of a stream, in order. */
  ghost function BytesOf(ts: seq<Token>): seq<bv8> {
    if ts == [] then []
    else (if ts[0].Byte? then [ts[0].value] else []) + BytesOf(ts[1..])
  }

  /** The metadata of a stream, in order. */
  ghost function MarksOf(ts: seq<Token>): seq<BucketType> {
    if ts == [] then []
    else (if ts[0].Mark? then [ts[0].btype] else []) + MarksOf(ts[1..])
  }

  /** The types of the metadata buckets, in order. */
  ghost function Metadata(bs: seq<Bucket>): seq<BucketType> {
    if bs == [] then []
    else (if bs[0].btype.isMetadata then [bs[0].btype] else []) + Metadata(bs[1..])
  }

  lemma {:induction false} TokensConcat(a: seq<Token>, b: seq<Token>)
    ensures BytesOf(a + b) == BytesOf(a) + BytesOf(b)
    ensures MarksOf(a + b) == MarksOf(a) + MarksOf(b)
  {
    if a == [] {
      assert a + b == b;
    } else {
      assert (a + b)[1..] == a[1..] + b;
      TokensConcat(a[1..], b);
    }
  }

  lemma {:induction false} OnlyBytes(c: seq<bv8>)
    ensures BytesOf(ByteTokens(c)) == c && MarksOf(ByteTokens(c)) == []
  {
    if c != [] {
      assert ByteTokens(c)[1..] == ByteTokens(c[1..]);
      OnlyBytes(c[1..]);
    }
  }

  /** The stream of a brigade holds exactly its bytes and its metadata, each in their order. */
  lemma {:induction false} StreamSays(mem: Memory, bs: seq<Bucket>)
    requires AllInMemory(mem, bs)
    ensures BytesOf(Stream(mem, bs)) == Bytes(mem, bs)
    ensures MarksOf(Stream(mem, bs)) == Metadata(bs)
  {
    if bs != [] {
      StreamSays(mem, bs[1..]);
      TokensConcat(Tokens(mem, bs[0]), Stream(mem, bs[1..]));
      OnlyBytes(Content(mem, bs[0]));
      if bs[0].btype.isMetadata {
        assert Tokens(mem, bs[0])[1..] == [];
      }
    }
  }

  /** A metadata bucket stands in the stream where it stands among the buckets. */
  lemma MarkStandsBetween(mem: Memory, a: seq<Bucket>, m: Bucket, b: seq<Bucket>)
    requires AllInMemory(mem, a) && AllInMemory(mem, b) && m.btype.isMetadata && m.length == 0
    ensures AllInMemory(mem, a + [m] + b)
    ensures Stream(mem, a + [m] + b) == Stream(mem, a) + [Mark(m.btype)] + Stream(mem, b)
  {
    assert Stream(mem, [m]) == [Mark(m.btype)] + Stream(mem, [m][1..]) && [m][1..] == [];
    AllConcat(mem, a, [m]);
    StreamConcat(mem, a, [m]);
    StreamConcat(mem, a + [m], b);
  }

  // ---------- sweeping ----------

  /** Deleting such a bucket cannot be observed. */
  predicate Silent(b: Bucket) {
    !b.btype.isMetadata && b.length == 0
  }

  /** The buckets that are left when those not marked are deleted. */
  ghost function Sweep(bs: seq<Bucket>, kept: seq<bool>): seq<Bucket>
    requires |kept| == |bs|
  {
    if bs == [] then [] else (if kept[0] then [bs[0]] else []) + Sweep(bs[1..], kept[1..])
  }

  lemma {:induction false} SweepAppend(bs: seq<Bucket>, kept: seq<bool>, b: Bucket, k: bool)
    requires |kept| == |bs|
    ensures Sweep(bs + [b], kept + [k]) == Sweep(bs, kept) + if k then [b] else []
  {
    if bs == [] {
      assert [] + [b] == [b] && [] + [k] == [k] && Sweep([], []) == [];
    } else {
      assert (bs + [b])[1..] == bs[1..] + [b] && (kept + [k])[1..] == kept[1..] + [k];
      SweepAppend(bs[1..], kept[1..], b, k);
      var first := if kept[0] then [bs[0]] else [];
      assert Sweep(bs + [b], kept + [k]) == first + Sweep(bs[1..] + [b], kept[1..] + [k]);
      assert Sweep(bs, kept) == first + Sweep(bs[1..], kept[1..]);
    }
  }

  lemma {:induction false} SweepShortens(mem: Memory, bs: seq<Bucket>, kept: seq<bool>)
    requires AllInMemory(mem, bs) && |kept| == |bs|
    ensures AllInMemory(mem, Sweep(bs, kept))
    ensures |Stream(mem, Sweep(bs, kept))| <= |Stream(mem, bs)|
    ensures |Stream(mem, Sweep(bs, kept))| == |Stream(mem, bs)|
            ==> forall i :: 0 <= i < |bs| && !kept[i] ==> Silent(bs[i])
    ensures (forall i :: 0 <= i < |bs| && !kept[i] ==> Silent(bs[i]))
            ==> Stream(mem, Sweep(bs, kept)) == Stream(mem, bs)
  {
    if bs != [] {
      var rest := Sweep(bs[1..], kept[1..]);
      SweepShortens(mem, bs[1..], kept[1..]);
      assert Sweep(bs, kept) == if kept[0] then [bs[0]] + rest else rest;
      assert ([bs[0]] + rest)[1..] == rest;
      if forall i :: 0 <= i < |bs| && !kept[i] ==> Silent(bs[i]) {
        assert forall i :: 0 <= i < |bs[1..]| && !kept[1..][i] ==> Silent(bs[1..][i]);
      }
      if |Stream(mem, Sweep(bs, kept))| == |Stream(mem, bs)| {
        forall i | 0 <= i < |bs| && !kept[i] ensures Silent(bs[i]) {
          assert i > 0 ==> bs[i] == bs[1..][i - 1] && kept[i] == kept[1..][i - 1];
        }
      }
    }
  }

  /**
   A sweep leaves the stream as it was exactly if every deleted bucket was empty and not
   metadata. In particular, deleting a metadata bucket always shows.
   */
  lemma SweepIsUnobservableIff(mem: Memory, bs: seq<Bucket>, kept: seq<bool>)
    requires AllInMemory(mem, bs) && |kept| == |bs|
    ensures AllInMemory(mem, Sweep(bs, kept))
    ensures Stream(mem, Sweep(bs, kept)) == Stream(mem, bs)
       <==> forall i :: 0 <= i < |bs| && !kept[i] ==> Silent(bs[i])
  {
    SweepShortens(mem, bs, kept);
  }

  // ---------- splitting and partitioning ----------

  function FirstPart(b: Bucket, point: nat): Bucket {
    b.(length := point)
  }

  function SecondPart(b: Bucket, point: nat): Bucket
    requires point <= b.length
  {
    b.(start := b.start + point, length := b.length - point)
  }

  /** The two parts of a split data bucket say what the bucket said. */
  lemma SplitKeepsContent(mem: Memory, b: Bucket, point: nat)
    requires InMemory(mem, b) && !b.btype.isMetadata && point <= b.length
    ensures InMemory(mem, FirstPart(b, point)) && InMemory(mem, SecondPart(b, point))
    ensures Content(mem, FirstPart(b, point)) + Content(mem, SecondPart(b, point)) == Content(mem, b)
    ensures Tokens(mem, FirstPart(b, point)) + Tokens(mem, SecondPart(b, point)) == Tokens(mem, b)
  {
    assert Content(mem, FirstPart(b, point)) + Content(mem, SecondPart(b, point)) == Content(mem, b);
  }

  /** x selects from the same data as y, with the same type, inside what y selects. */
  ghost predicate WindowOf(x: Bucket, y: Bucket) {
    x.btype == y.btype && x.data == y.data && y.start <= x.start && x.start + x.length <= y.start + y.length
  }

  /** Both parts of a bucket keep its type and select from what it selected, and they tile it. */
  lemma PartsAreWindows(b: Bucket, point: nat)
    requires point <= b.length
    ensures WindowOf(FirstPart(b, point), b) && WindowOf(SecondPart(b, point), b)
    ensures FirstPart(b, point).length == point && FirstPart(b, point).length + SecondPart(b, point).length == b.length
    ensures FirstPart(b, point).start == b.start && SecondPart(b, point).start == b.start + point
  {
  }

  /** bs with its k-th bucket split off bytes into it. */
  function SplitAt(bs: seq<Bucket>, k: nat, off: nat): seq<Bucket>
    requires k < |bs| && off <= bs[k].length
  {
    bs[..k] + [FirstPart(bs[k], off), SecondPart(bs[k], off)] + bs[k + 1..]
  }

  /** An error code is that of a split which the type of the bucket refused, or for which memory ran out. */
  datatype Status = APR_SUCCESS | APR_INCOMPLETE | APR_ERROR(code: int)

  /**
   What apr_brigade_partition may do, by its contract: point `at` the first bucket after the
   partition, having split at most one bucket; or report that the brigade is too short and
   point at the sentinel; or return an error code, and then nothing has been split.
   */
  ghost predicate Partition(before: seq<Bucket>, point: nat, status: Status, after: seq<Bucket>, at: nat) {
    at <= |after| &&
    match status
    case APR_SUCCESS =>
      && Length(after[..at]) == point
      && (after == before || exists k: nat, off: nat :: SplitsInside(before, k, off, after) && at == k + 1)
    case APR_INCOMPLETE =>
      Length(before) < point && after == before && at == |after|
    case APR_ERROR(_) => after == before
  }

  ghost predicate SplitsInside(before: seq<Bucket>, k: nat, off: nat, after: seq<Bucket>) {
    k < |before| && 0 < off < before[k].length && after == SplitAt(before, k, off)
  }

  /** The contract can always be met. */
  lemma {:induction false} PartitionExists(before: seq<Bucket>, point: nat)
    returns (status: Status, after: seq<Bucket>, at: nat)
    ensures Partition(before, point, status, after, at) && !status.APR_ERROR?
  {
    if Length(before) < point {
      status, after, at := APR_INCOMPLETE, before, |before|;
    } else {
      status := APR_SUCCESS;
      var k := FindBucket(before, point);
      if Length(before[..k]) == point {
        after, at := before, k;
      } else {
        var off := point - Length(before[..k]);
        after, at := SplitAt(before, k, off), k + 1;
        assert after[..at] == before[..k] + [FirstPart(before[k], off)];
        LengthConcat(before[..k], [FirstPart(before[k], off)]);
        assert SplitsInside(before, k, off, after);
      }
    }
  }

  lemma {:induction false} FindBucket(bs: seq<Bucket>, point: nat) returns (k: nat)
    requires point <= Length(bs)
    ensures k <= |bs| && Length(bs[..k]) <= point
    ensures Length(bs[..k]) < point ==> k < |bs| && point < Length(bs[..k]) + bs[k].length
  {
    if point == 0 {
      k := 0;
    } else if point < bs[0].length {
      k := 0;
    } else {
      var j := FindBucket(bs[1..], point - bs[0].length);
      k := j + 1;
      assert bs[..k] == [bs[0]] + bs[1..][..j];
    }
  }

  lemma SplitAtKeepsStream(mem: Memory, bs: seq<Bucket>, k: nat, off: nat)
    requires AllInMemory(mem, bs) && k < |bs| && 0 < off < bs[k].length
    ensures AllInMemory(mem, SplitAt(bs, k, off))
    ensures Stream(mem, SplitAt(bs, k, off)) == Stream(mem, bs)
    ensures Bytes(mem, SplitAt(bs, k, off)) == Bytes(mem, bs)
  {
    var b := bs[k];
    var parts := [FirstPart(b, off), SecondPart(b, off)];
    SplitKeepsContent(mem, b, off);
    PairStream(mem, parts[0], parts[1]);
    PairStream1(mem, b);
    assert bs == bs[..k] + [b] + bs[k + 1..];
    StreamConcat(mem, bs[..k], [b]);
    BytesConcat(mem, bs[..k], [b]);
    StreamConcat(mem, bs[..k] + [b], bs[k + 1..]);
    BytesConcat(mem, bs[..k] + [b], bs[k + 1..]);
    StreamConcat(mem, bs[..k], parts);
    BytesConcat(mem, bs[..k], parts);
    StreamConcat(mem, bs[..k] + parts, bs[k + 1..]);
    BytesConcat(mem, bs[..k] + parts, bs[k + 1..]);
  }

  lemma PairStream1(mem: Memory, b: Bucket)
    requires InMemory(mem, b)
    ensures Stream(mem, [b]) == Tokens(mem, b) && Bytes(mem, [b]) == Content(mem, b)
  {
  }

  lemma PairStream(mem: Memory, b: Bucket, c: Bucket)
    requires InMemory(mem, b) && InMemory(mem, c)
    ensures Stream(mem, [b, c]) == Tokens(mem, b) + Tokens(mem, c)
    ensures Bytes(mem, [b, c]) == Content(mem, b) + Content(mem, c)
  {
    assert [b, c] == [b] + [c];
    PairStream1(mem, b);
    PairStream1(mem, c);
    StreamConcat(mem, [b], [c]);
    BytesConcat(mem, [b], [c]);
  }

  /**
   Partitioning changes neither the bytes nor the metadata nor their order, and adds at most
   one bucket. Unless there is an error, it succeeds exactly if the brigade is long enough, and
   then has exactly the bytes up to the offset before the bucket it points at. If the brigade
   is too short, it points behind the last bucket.
   */
  lemma PartitionMeansIt(mem: Memory, before: seq<Bucket>, point: nat, status: Status, after: seq<Bucket>, at: nat)
    requires AllInMemory(mem, before) && Partition(before, point, status, after, at)
    ensures AllInMemory(mem, after)
    ensures Stream(mem, after) == Stream(mem, before)
    ensures |before| <= |after| <= |before| + 1
    ensures status == APR_SUCCESS ==> point <= Length(before)
    ensures status == APR_INCOMPLETE ==> point > Length(before)
    ensures status == APR_INCOMPLETE ==>
              after == before && after[at..] == [] && Stream(mem, after[..at]) == Stream(mem, before)
    ensures status.APR_ERROR? ==> after == before
    ensures status == APR_SUCCESS ==>
              && Bytes(mem, after[..at]) == Bytes(mem, before)[..point]
              && Bytes(mem, after[at..]) == Bytes(mem, before)[point..]
  {
    if status == APR_INCOMPLETE {
      assert after[..at] == before;
    }
    if status == APR_SUCCESS {
      if after != before {
        var k: nat, off: nat :| SplitsInside(before, k, off, after);
        SplitAtKeepsStream(mem, before, k, off);
      }
      assert Bytes(mem, after) == Bytes(mem, before);
      BytesAround(mem, after, at);
    }
  }

  lemma BytesAround(mem: Memory, bs: seq<Bucket>, at: nat)
    requires AllInMemory(mem, bs) && at <= |bs|
    ensures var p := Length(bs[..at]);
            && p <= Length(bs)
            && Bytes(mem, bs[..at]) == Bytes(mem, bs)[..p]
            && Bytes(mem, bs[at..]) == Bytes(mem, bs)[p..]
  {
    assert bs == bs[..at] + bs[at..];
    BytesConcat(mem, bs[..at], bs[at..]);
  }

  /** Some bucket boundary has exactly p bytes before it. */
  ghost predicate HasCut(bs: seq<Bucket>, p: nat) {
    exists i: nat :: IsCut(bs, i, p)
  }

  ghost predicate IsCut(bs: seq<Bucket>, i: nat, p: nat) {
    i <= |bs| && Length(bs[..i]) == p
  }

  /** Splitting inside a bucket makes one new boundary, where there was none. */
  lemma SplitCuts(bs: seq<Bucket>, k: nat, off: nat, i: nat)
    requires k < |bs| && 0 < off < bs[k].length && i <= |bs| + 1
    ensures Length(SplitAt(bs, k, off)[..i])
         == if i <= k then Length(bs[..i]) else if i == k + 1 then Length(bs[..k]) + off else Length(bs[..i - 1])
  {
    var after := SplitAt(bs, k, off);
    var first, second := FirstPart(bs[k], off), SecondPart(bs[k], off);
    if i <= k {
      assert after[..i] == bs[..i];
    } else if i == k + 1 {
      assert after[..i] == bs[..k] + [first] && [first][1..] == [];
      LengthConcat(bs[..k], [first]);
    } else {
      assert after[..i] == bs[..k] + [first, second] + bs[k + 1..i - 1];
      assert bs[..i - 1] == bs[..k] + [bs[k]] + bs[k + 1..i - 1];
      LengthConcat(bs[..k] + [first, second], bs[k + 1..i - 1]);
      LengthConcat(bs[..k] + [bs[k]], bs[k + 1..i - 1]);
      LengthConcat(bs[..k], [first, second]);
      LengthConcat(bs[..k], [bs[k]]);
      assert [first, second][1..] == [second] && [second][1..] == [] && [bs[k]][1..] == [];
    }
  }

  lemma SplitKeepsCut(bs: seq<Bucket>, k: nat, off: nat, p: nat)
    requires k < |bs| && 0 < off < bs[k].length && HasCut(bs, p)
    ensures HasCut(SplitAt(bs, k, off), p)
  {
    var i: nat :| IsCut(bs, i, p);
    var j := if i <= k then i else i + 1;
    SplitCuts(bs, k, off, j);
    assert IsCut(SplitAt(bs, k, off), j, p);
  }

  lemma PrefixLengths(bs: seq<Bucket>, i: nat, j: nat)
    requires i <= j <= |bs|
    ensures Length(bs[..i]) <= Length(bs[..j])
  {
    assert bs[..j] == bs[..i] + bs[i..j];
    LengthConcat(bs[..i], bs[i..j]);
  }

  /** A place inside a bucket is no boundary. */
  lemma InsideIsNoCut(bs: seq<Bucket>, k: nat, off: nat)
    requires k < |bs| && 0 < off < bs[k].length
    ensures !HasCut(bs, Length(bs[..k]) + off)
  {
    assert bs[..k + 1] == bs[..k] + [bs[k]] && [bs[k]][1..] == [];
    LengthConcat(bs[..k], [bs[k]]);
    forall i: nat | i <= |bs| ensures Length(bs[..i]) != Length(bs[..k]) + off {
      if i <= k {
        PrefixLengths(bs, i, k);
      } else {
        PrefixLengths(bs, k + 1, i);
      }
    }
  }

  /**
   A successful partition splits a bucket exactly if there was no boundary at the offset, and
   makes no boundary but that one. Where there is one already, any bucket with just the bytes up
   to the offset before it may be pointed at.
   */
  lemma PartitionCutsOnlyThere(before: seq<Bucket>, point: nat, after: seq<Bucket>, at: nat)
    requires Partition(before, point, APR_SUCCESS, after, at)
    ensures after == before <==> HasCut(before, point)
    ensures forall p :: HasCut(after, p) <==> HasCut(before, p) || p == point
    ensures IsCut(after, at, point)
  {
    if after == before {
      assert IsCut(before, at, point);
    } else {
      var k: nat, off: nat :| SplitsInside(before, k, off, after) && at == k + 1;
      SplitCuts(before, k, off, k + 1);
      InsideIsNoCut(before, k, off);
      forall p ensures HasCut(after, p) <==> HasCut(before, p) || p == point {
        if i: nat :| IsCut(after, i, p) {
          SplitCuts(before, k, off, i);
          assert i != k + 1 ==> IsCut(before, if i <= k then i else i - 1, p);
        }
        if HasCut(before, p) {
          SplitKeepsCut(before, k, off, p);
        }
        assert IsCut(after, at, point);
      }
    }
  }

  ghost predicate WindowOfSome(x: Bucket, bs: seq<Bucket>) {
    exists j :: 0 <= j < |bs| && WindowOf(x, bs[j])
  }

  /** Every bucket after a partition is a window of a bucket before it, type and data included. */
  lemma PartitionLeavesWindows(before: seq<Bucket>, point: nat, status: Status, after: seq<Bucket>, at: nat)
    requires Partition(before, point, status, after, at)
    ensures forall i :: 0 <= i < |after| ==> WindowOfSome(after[i], before)
  {
    forall i | 0 <= i < |after| ensures WindowOfSome(after[i], before) {
      if after == before {
        assert WindowOf(after[i], before[i]);
      } else {
        var k: nat, off: nat :| SplitsInside(before, k, off, after);
        PartsAreWindows(before[k], off);
        assert WindowOf(after[i], before[if i <= k then i else i - 1]);
      }
    }
  }

  /**
   Where there is a boundary at the offset, each bucket that begins there may be pointed at. An
   error code may be answered at any time.
   */
  lemma BoundaryMayBeAnswered(before: seq<Bucket>, point: nat, at: nat, code: int)
    ensures Partition(before, point, APR_SUCCESS, before, at) <==> IsCut(before, at, point)
    ensures at <= |before| ==> Partition(before, point, APR_ERROR(code), before, at)
  {
    if Partition(before, point, APR_SUCCESS, before, at) {
      assert IsCut(before, at, point);
    }
  }

  /** A request to partition, and what it returned. */
  datatype Request = Request(point: nat, status: Status)

  /** A brigade partitioned as requested, one request after the other. */
  ghost predicate PartitionAll(before: seq<Bucket>, requests: seq<Request>, after: seq<Bucket>)
    decreases |requests|
  {
    if requests == [] then after == before
    else exists mid, at ::
      && Partition(before, requests[0].point, requests[0].status, mid, at)
      && PartitionAll(mid, requests[1..], after)
  }

  /** Requests are made one after the other: one more is made on what the others left. */
  lemma {:induction false} OneMoreRequest(before: seq<Bucket>, requests: seq<Request>, r: Request, after: seq<Bucket>)
    ensures PartitionAll(before, [], after) <==> after == before
    ensures PartitionAll(before, requests + [r], after)
       <==> exists mid, at :: PartitionAll(before, requests, mid) && Partition(mid, r.point, r.status, after, at)
    decreases |requests|
  {
    var all := requests + [r];
    if requests == [] {
      assert all[1..] == [] && all[0] == r;
      assert PartitionAll(before, [], before);
    } else {
      assert all[1..] == requests[1..] + [r] && all[0] == requests[0];
      var (p, s) := (requests[0].point, requests[0].status);
      if PartitionAll(before, all, after) {
        var first, i :| Partition(before, p, s, first, i) && PartitionAll(first, requests[1..] + [r], after);
        OneMoreRequest(first, requests[1..], r, after);
        var mid, at :| PartitionAll(first, requests[1..], mid) && Partition(mid, r.point, r.status, after, at);
        assert PartitionAll(before, requests, mid);
      }
      if mid, at :| PartitionAll(before, requests, mid) && Partition(mid, r.point, r.status, after, at) {
        var first, i :| Partition(before, p, s, first, i) && PartitionAll(first, requests[1..], mid);
        OneMoreRequest(first, requests[1..], r, after);
        assert PartitionAll(first, all[1..], after);
      }
    }
  }

  /** No later partition takes an earlier cut away, in whatever order the requests come. */
  lemma {:induction false} CutsSurvive(mem: Memory, before: seq<Bucket>, requests: seq<Request>, after: seq<Bucket>)
    requires AllInMemory(mem, before) && PartitionAll(before, requests, after)
    ensures AllInMemory(mem, after) && Stream(mem, after) == Stream(mem, before)
    ensures Bytes(mem, after) == Bytes(mem, before) && Length(after) == Length(before)
    ensures |after| <= |before| + |requests|
    ensures forall p :: HasCut(before, p) ==> HasCut(after, p)
    ensures forall q :: q in requests && q.status == APR_SUCCESS ==> HasCut(after, q.point)
    decreases |requests|
  {
    if requests != [] {
      var Request(point, status) := requests[0];
      var mid, at :| Partition(before, point, status, mid, at) && PartitionAll(mid, requests[1..], after);
      PartitionMeansIt(mem, before, point, status, mid, at);
      PartitionKeepsBytes(mem, before, point, status, mid, at);
      CutsSurvive(mem, mid, requests[1..], after);
      forall p | HasCut(before, p) ensures HasCut(mid, p) {
        if mid != before {
          var k: nat, off: nat :| SplitsInside(before, k, off, mid);
          SplitKeepsCut(before, k, off, p);
        }
      }
      if status == APR_SUCCESS {
        assert IsCut(mid, at, point);
      }
    }
  }

  lemma PartitionKeepsBytes(mem: Memory, before: seq<Bucket>, point: nat, status: Status, after: seq<Bucket>, at: nat)
    requires AllInMemory(mem, before) && Partition(before, point, status, after, at) && AllInMemory(mem, after)
    ensures Bytes(mem, after) == Bytes(mem, before)
  {
    if after != before {
      var k: nat, off: nat :| SplitsInside(before, k, off, after);
      SplitAtKeepsStream(mem, before, k, off);
    }
  }

  /**
   Known ranges of bytes: once a brigade has been partitioned at the ends of any number of
   ranges, overlapping or not, each range is a run of whole buckets. Requests that failed in
   between do no harm.
   */
  lemma RangesAreWholeBuckets(mem: Memory, before: seq<Bucket>, requests: seq<Request>, after: seq<Bucket>,
                              lo: nat, hi: nat)
      returns (i: nat, j: nat)
    requires AllInMemory(mem, before) && PartitionAll(before, requests, after)
    requires Request(lo, APR_SUCCESS) in requests && Request(hi, APR_SUCCESS) in requests && lo <= hi
    ensures i <= j <= |after| && AllInMemory(mem, after) && hi <= Length(before)
    ensures Bytes(mem, after[i..j]) == Bytes(mem, before)[lo..hi]
  {
    CutsSurvive(mem, before, requests, after);
    i :| IsCut(after, i, lo);
    BytesAround(mem, after, i);
    if lo == hi {
      j := i;
      assert after[i..j] == [];
    } else {
      j :| IsCut(after, j, hi);
      BytesBetween(mem, after, i, j, lo, hi);
    }
  }

  lemma BytesBetween(mem: Memory, bs: seq<Bucket>, i: nat, j: nat, lo: nat, hi: nat)
    requires AllInMemory(mem, bs) && IsCut(bs, i, lo) && IsCut(bs, j, hi) && lo < hi
    ensures i < j && hi <= Length(bs) && Bytes(mem, bs[i..j]) == Bytes(mem, bs)[lo..hi]
  {
    if j <= i {
      assert bs[..i] == bs[..j] + bs[j..i];
      LengthConcat(bs[..j], bs[j..i]);
    }
    BytesAround(mem, bs, j);
    assert bs[..j][..i] == bs[..i] && bs[..j][i..] == bs[i..j];
    BytesAround(mem, bs[..j], i);
  }
}
