/** The chunk planner of pipeline.py (lines 41-49): every chromosome is tiled
    into half-open windows of a fixed width. */
module Planner {

  /** `CHUNK_SIZE` of pipeline.py. */
  const ChunkSize: nat := 200000

  /** A half-open window [start, end) of one chromosome. */
  datatype Interval = Interval(chrom: string, start: nat, end: nat)

  function Min(a: nat, b: nat): nat
  {
    if a <= b then a else b
  }

  /** Position `p` of chromosome `chrom` falls in `iv`. */
  predicate Covers(iv: Interval, chrom: string, p: nat)
  {
    iv.chrom == chrom && iv.start <= p < iv.end
  }

  /** Some window of `r` covers position `p` of `chrom`. */
  predicate CoveredBy(r: seq<Interval>, chrom: string, p: nat)
  {
    exists i :: 0 <= i < |r| && Covers(r[i], chrom, p)
  }

  /** Two windows share no position. */
  predicate Apart(a: Interval, b: Interval)
  {
    a.chrom != b.chrom || a.end <= b.start || b.end <= a.start
  }

  /** `for start in range(from, length, width): end = min(start + width, length)`. */
  function ChunksFrom(chrom: string, from: nat, length: nat, width: nat): (r: seq<Interval>)
    requires width > 0
    ensures from >= length <==> |r| == 0
    ensures |r| > 0 ==> r[0].start == from && r[|r| - 1].end == length
    ensures forall i :: 0 <= i < |r| ==>
              r[i].chrom == chrom && from <= r[i].start < r[i].end <= length
              && r[i].end == Min(r[i].start + width, length)
    ensures forall i :: 0 <= i < |r| - 1 ==> r[i].end == r[i + 1].start
    decreases length - from
  {
    if from >= length then []
    else [Interval(chrom, from, Min(from + width, length))] + ChunksFrom(chrom, from + width, length, width)
  }

  /** The windows of one chromosome of length `length`. */
  function ChromChunks(chrom: string, length: nat, width: nat): seq<Interval>
    requires width > 0
  {
    ChunksFrom(chrom, 0, length, width)
  }

  /** Window i of `r` starts at `from + i * width`. */
  predicate StartsEvery(r: seq<Interval>, from: nat, width: nat)
  {
    forall i :: 0 <= i < |r| ==> r[i].start == from + i * width
  }

  /** The i-th window starts at `from + i * width`. */
  lemma {:induction false} ChunkStartAt(chrom: string, from: nat, length: nat, width: nat, i: nat)
    requires width > 0
    requires i < |ChunksFrom(chrom, from, length, width)|
    ensures ChunksFrom(chrom, from, length, width)[i].start == from + i * width
    decreases i
  {
    if i > 0 {
      var r := ChunksFrom(chrom, from, length, width);
      var j := i - 1;
      ChunkStartAt(chrom, from, length, width, j);
      assert r[j].end == r[i].start < length;
      ShiftedMultiple(from, i, width);
    }
  }

  /** The window starts are exactly the values of the `range`. */
  lemma ChunkStarts(chrom: string, from: nat, length: nat, width: nat)
    requires width > 0
    ensures StartsEvery(ChunksFrom(chrom, from, length, width), from, width)
  {
    var r := ChunksFrom(chrom, from, length, width);
    forall i | 0 <= i < |r|
      ensures r[i].start == from + i * width
    {
      ChunkStartAt(chrom, from, length, width, i);
    }
  }

  lemma ShiftedMultiple(from: int, i: int, width: int)
    ensures from + (i - 1) * width + width == from + i * width
  {
  }

  /** Windows that abut, each non-empty, are listed left to right without overlap. */
  lemma {:induction false} AbuttingOrdered(r: seq<Interval>)
    requires forall i :: 0 <= i < |r| ==> r[i].start < r[i].end
    requires forall i :: 0 <= i < |r| - 1 ==> r[i].end == r[i + 1].start
    ensures forall i, j :: 0 <= i < j < |r| ==> r[i].end <= r[j].start
  {
    if |r| > 1 {
      AbuttingOrdered(r[1..]);
      forall i, j | 0 <= i < j < |r|
        ensures r[i].end <= r[j].start
      {
        if i > 0 {
          assert r[i] == r[1..][i - 1] && r[j] == r[1..][j - 1];
        } else if j > 1 {
          assert r[1] == r[1..][0] && r[j] == r[1..][j - 1];
        }
      }
    }
  }

  /** Every window except the last has exactly the full width. */
  lemma ChunksFullWidth(chrom: string, from: nat, length: nat, width: nat)
    requires width > 0
    ensures var r := ChunksFrom(chrom, from, length, width);
            forall i :: 0 <= i < |r| - 1 ==> r[i].end - r[i].start == width
  {
    var r := ChunksFrom(chrom, from, length, width);
    AbuttingOrdered(r);
    forall i | 0 <= i < |r| - 1
      ensures r[i].end - r[i].start == width
    {
      assert r[i].end <= r[|r| - 1].start < length;
    }
  }

  /** Every position of [from, length) lies in some window. */
  lemma ChunksCover(chrom: string, from: nat, length: nat, width: nat, p: nat)
    requires width > 0
    requires from <= p < length
    ensures CoveredBy(ChunksFrom(chrom, from, length, width), chrom, p)
  {
    var r := ChunksFrom(chrom, from, length, width);
    CoveredFrom(r, chrom, length, p, 0);
  }

  /** Abutting windows that end at `length` cover every position from the start of window `k` on. */
  lemma {:induction false} CoveredFrom(r: seq<Interval>, chrom: string, length: nat, p: nat, k: nat)
    requires k < |r| && r[|r| - 1].end == length
    requires forall i :: 0 <= i < |r| ==> r[i].chrom == chrom
    requires forall i :: 0 <= i < |r| - 1 ==> r[i].end == r[i + 1].start
    requires r[k].start <= p < length
    ensures CoveredBy(r, chrom, p)
    decreases |r| - k
  {
    if p < r[k].end {
      assert Covers(r[k], chrom, p);
    } else {
      CoveredFrom(r, chrom, length, p, k + 1);
    }
  }

  /** No position lies in two different windows of a tiling. */
  lemma ChunksCoverAtMostOnce(chrom: string, from: nat, length: nat, width: nat, p: nat)
    requires width > 0
    ensures var r := ChunksFrom(chrom, from, length, width);
            forall i, j :: 0 <= i < |r| && 0 <= j < |r| && Covers(r[i], chrom, p) && Covers(r[j], chrom, p) ==> i == j
  {
    var r := ChunksFrom(chrom, from, length, width);
    AbuttingOrdered(r);
  }

  /** Window `w` lies inside one of the listed chromosomes. */
  predicate WithinSome(w: Interval, lengths: seq<(string, nat)>)
  {
    exists j :: 0 <= j < |lengths| && lengths[j].0 == w.chrom && w.end <= lengths[j].1
  }

  /** The chromosome names are pairwise distinct, as the keys of a dictionary are. */
  predicate DistinctNames(lengths: seq<(string, nat)>)
  {
    forall i, j :: 0 <= i < j < |lengths| ==> lengths[i].0 != lengths[j].0
  }

  /** The nested submission loop of the pipeline: the windows of every chromosome,
      chromosome after chromosome, in the order the lengths are listed. */
  function PlanChunks(lengths: seq<(string, nat)>, width: nat): (r: seq<Interval>)
    requires width > 0
    ensures forall i :: 0 <= i < |r| ==> r[i].start < r[i].end && WithinSome(r[i], lengths)
  {
    if |lengths| == 0 then []
    else
      var head := ChromChunks(lengths[0].0, lengths[0].1, width);
      var tail := PlanChunks(lengths[1..], width);
      assert forall i :: 0 <= i < |head| ==> WithinSome(head[i], lengths) by {
        forall i | 0 <= i < |head|
          ensures WithinSome(head[i], lengths)
        {
          assert lengths[0].0 == head[i].chrom && head[i].end <= lengths[0].1;
        }
      }
      assert forall i :: 0 <= i < |tail| ==> WithinSome(tail[i], lengths) by {
        forall i | 0 <= i < |tail|
          ensures WithinSome(tail[i], lengths)
        {
          var j :| 0 <= j < |lengths[1..]| && lengths[1..][j].0 == tail[i].chrom && tail[i].end <= lengths[1..][j].1;
          assert lengths[j + 1] == lengths[1..][j];
        }
      }
      head + tail
  }

  /** Every position below a listed chromosome's length is in some planned window. */
  lemma {:induction false} PlanCovers(lengths: seq<(string, nat)>, width: nat, j: nat, p: nat)
    requires width > 0
    requires j < |lengths| && p < lengths[j].1
    ensures CoveredBy(PlanChunks(lengths, width), lengths[j].0, p)
  {
    var head := ChromChunks(lengths[0].0, lengths[0].1, width);
    var tail := PlanChunks(lengths[1..], width);
    assert PlanChunks(lengths, width) == head + tail;
    if j == 0 {
      ChunksCover(lengths[0].0, 0, lengths[0].1, width, p);
      var i :| 0 <= i < |head| && Covers(head[i], lengths[0].0, p);
      assert (head + tail)[i] == head[i];
    } else {
      var j' := j - 1;
      assert lengths[1..][j'] == lengths[j];
      PlanCovers(lengths[1..], width, j', p);
      var i :| 0 <= i < |tail| && Covers(tail[i], lengths[j].0, p);
      assert (head + tail)[|head| + i] == tail[i];
    }
  }

  /** No two different windows of `r` share a position. */
  predicate AllApart(r: seq<Interval>)
  {
    forall i, j :: 0 <= i < |r| && 0 <= j < |r| && i != j ==> Apart(r[i], r[j])
  }

  /** The windows of one chromosome are pairwise apart. */
  lemma ChunksApart(chrom: string, from: nat, length: nat, width: nat)
    requires width > 0
    ensures AllApart(ChunksFrom(chrom, from, length, width))
  {
    AbuttingOrdered(ChunksFrom(chrom, from, length, width));
  }

  /** Windows of chromosome `c` followed by windows of other chromosomes stay apart. */
  lemma ApartConcat(head: seq<Interval>, tail: seq<Interval>, c: string)
    requires AllApart(head) && AllApart(tail)
    requires forall i :: 0 <= i < |head| ==> head[i].chrom == c
    requires forall i :: 0 <= i < |tail| ==> tail[i].chrom != c
    ensures AllApart(head + tail)
  {
    var r := head + tail;
    forall i, j | 0 <= i < |r| && 0 <= j < |r| && i != j
      ensures Apart(r[i], r[j])
    {
      if i >= |head| && j >= |head| {
        assert r[i] == tail[i - |head|] && r[j] == tail[j - |head|];
      }
    }
  }

  /** With distinct chromosome names, no two planned windows share a position. */
  lemma {:induction false} PlanApart(lengths: seq<(string, nat)>, width: nat)
    requires width > 0
    requires DistinctNames(lengths)
    ensures AllApart(PlanChunks(lengths, width))
  {
    if |lengths| > 0 {
      var head := ChromChunks(lengths[0].0, lengths[0].1, width);
      var tail := PlanChunks(lengths[1..], width);
      assert PlanChunks(lengths, width) == head + tail;
      assert DistinctNames(lengths[1..]);
      PlanApart(lengths[1..], width);
      ChunksApart(lengths[0].0, 0, lengths[0].1, width);
      forall i | 0 <= i < |tail|
        ensures tail[i].chrom != lengths[0].0
      {
        TailChrom(lengths, width, i);
      }
      ApartConcat(head, tail, lengths[0].0);
    }
  }

  /** The windows after the first chromosome's are on other chromosomes. */
  lemma TailChrom(lengths: seq<(string, nat)>, width: nat, i: nat)
    requires width > 0
    requires DistinctNames(lengths) && |lengths| > 0
    requires i < |PlanChunks(lengths[1..], width)|
    ensures PlanChunks(lengths[1..], width)[i].chrom != lengths[0].0
  {
    var w := PlanChunks(lengths[1..], width)[i];
    var j :| 0 <= j < |lengths[1..]| && lengths[1..][j].0 == w.chrom && w.end <= lengths[1..][j].1;
    assert lengths[1..][j] == lengths[j + 1];
  }

  lemma ChromChunksExamples()
    ensures ChromChunks("chr1", 0, ChunkSize) == []
    ensures ChromChunks("chr1", 450000, ChunkSize)
              == [Interval("chr1", 0, 200000), Interval("chr1", 200000, 400000), Interval("chr1", 400000, 450000)]
  {
  }

  lemma PlanChunksExamples()
    ensures PlanChunks([("chr1", 250000), ("chr2", 0), ("chrM", 16569)], ChunkSize)
              == [Interval("chr1", 0, 200000), Interval("chr1", 200000, 250000), Interval("chrM", 0, 16569)]
  {
  }
}
