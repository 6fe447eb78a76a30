/** The driver of pipeline.py: plan the windows, count every window, and fold the
    window results into one global map in whatever order the workers finish. */
module Pipeline {
  import opened Wrappers
  import opened HarpTypes
  import opened VariantSource
  import opened ChunkLoader
  import opened Process
  import opened Planner
  import opened Writer

  /** What one submitted window yields: its counts, or the exception it raised. */
  type Outcome = Result<VariantMap, Error>

  /** The alignment file as the driver sees it: the reference names with their
      lengths, in header order, and the alignments. */
  datatype BamFile = BamFile(references: seq<(string, nat)>, alignments: seq<Read>)

  /** The merge loop: outcomes are taken in the given order, the first exception
      ends the run, an empty window result is skipped, and every other result is
      merged into the global map. */
  function FoldMerge(g: VariantMap, rs: seq<Outcome>): (r: Outcome)
    ensures r.Ok? ==> g.Keys <= r.value.Keys
    decreases |rs|
  {
    if |rs| == 0 then Ok(g)
    else if rs[0].Err? then Err(rs[0].error)
    else if |rs[0].value| == 0 then FoldMerge(g, rs[1..])
    else
      match MergeResults(g, rs[0].value)
      case Err(e) => Err(e)
      case Ok(g') => FoldMerge(g', rs[1..])
  }

  /** Some outcome is an exception. */
  predicate HasErr(rs: seq<Outcome>)
  {
    exists i :: 0 <= i < |rs| && rs[i].Err?
  }

  /** Every exception among the outcomes is `e`. */
  predicate ErrorsAre(rs: seq<Outcome>, e: Error)
  {
    forall i :: 0 <= i < |rs| && rs[i].Err? ==> rs[i].error == e
  }

  /** No key is reported by two different outcomes. */
  predicate Disjoint(rs: seq<Outcome>)
  {
    forall i, j :: 0 <= i < |rs| && 0 <= j < |rs| && i != j && rs[i].Ok? && rs[j].Ok? ==>
      rs[i].value.Keys !! rs[j].value.Keys
  }

  /** No outcome reports a key already in `g`. */
  predicate DisjointFrom(g: VariantMap, rs: seq<Outcome>)
  {
    forall i :: 0 <= i < |rs| && rs[i].Ok? ==> g.Keys !! rs[i].value.Keys
  }

  /** Some outcome reports key `k`. */
  predicate Reports(rs: seq<Outcome>, k: VariantKey)
  {
    exists i :: 0 <= i < |rs| && rs[i].Ok? && k in rs[i].value
  }

  /** All successful outcomes laid over each other. */
  function Union(rs: seq<Outcome>): VariantMap
  {
    if |rs| == 0 then map[]
    else (if rs[0].Ok? then rs[0].value else map[]) + Union(rs[1..])
  }

  /** The union holds a key exactly when some outcome reports it. */
  lemma {:induction false} UnionKeys(rs: seq<Outcome>, k: VariantKey)
    ensures k in Union(rs) <==> Reports(rs, k)
  {
    if |rs| > 0 {
      UnionKeys(rs[1..], k);
      if Reports(rs[1..], k) {
        var i :| 0 <= i < |rs[1..]| && rs[1..][i].Ok? && k in rs[1..][i].value;
        assert rs[i + 1] == rs[1..][i];
      }
      if Reports(rs, k) && !(rs[0].Ok? && k in rs[0].value) {
        var i :| 0 <= i < |rs| && rs[i].Ok? && k in rs[i].value;
        assert rs[1..][i - 1] == rs[i];
      }
    }
  }

  /** With disjoint outcomes, the union holds each reported variant unchanged. */
  lemma {:induction false} UnionAt(rs: seq<Outcome>, i: nat, k: VariantKey)
    requires Disjoint(rs)
    requires i < |rs| && rs[i].Ok? && k in rs[i].value
    ensures k in Union(rs) && Union(rs)[k] == rs[i].value[k]
  {
    var tail := rs[1..];
    assert Disjoint(tail) by {
      forall a, b | 0 <= a < |tail| && 0 <= b < |tail| && a != b && tail[a].Ok? && tail[b].Ok?
        ensures tail[a].value.Keys !! tail[b].value.Keys
      {
        assert tail[a] == rs[a + 1] && tail[b] == rs[b + 1];
      }
    }
    if i == 0 {
      forall j | 0 <= j < |tail| && tail[j].Ok?
        ensures k !in tail[j].value
      {
        assert tail[j] == rs[j + 1];
        assert rs[0].value.Keys !! rs[j + 1].value.Keys;
      }
      UnionKeys(tail, k);
    } else {
      var j := i - 1;
      assert tail[j] == rs[i];
      UnionAt(tail, j, k);
    }
  }

  /** Dropping the first outcome keeps the outcomes disjoint and their exceptions alike. */
  lemma DropFirst(rs: seq<Outcome>, e: Error)
    requires |rs| > 0 && Disjoint(rs) && ErrorsAre(rs, e)
    ensures Disjoint(rs[1..]) && ErrorsAre(rs[1..], e)
    ensures rs[0].Ok? ==> (HasErr(rs) <==> HasErr(rs[1..]))
  {
    var tail := rs[1..];
    forall a, b | 0 <= a < |tail| && 0 <= b < |tail| && a != b && tail[a].Ok? && tail[b].Ok?
      ensures tail[a].value.Keys !! tail[b].value.Keys
    {
      assert tail[a] == rs[a + 1] && tail[b] == rs[b + 1];
    }
    if rs[0].Ok? && HasErr(rs) {
      var a :| 0 <= a < |rs| && rs[a].Err?;
      assert tail[a - 1] == rs[a];
    }
  }

  /** After the first result is merged, the remaining results are still new to the
      global map. */
  lemma DropFirstFrom(g: VariantMap, rs: seq<Outcome>)
    requires |rs| > 0 && rs[0].Ok? && Disjoint(rs) && DisjointFrom(g, rs)
    ensures DisjointFrom(g + rs[0].value, rs[1..])
  {
    var tail := rs[1..];
    forall a | 0 <= a < |tail| && tail[a].Ok?
      ensures (g + rs[0].value).Keys !! tail[a].value.Keys
    {
      assert tail[a] == rs[a + 1];
    }
  }

  lemma MapAddAssociative(a: VariantMap, b: VariantMap, c: VariantMap)
    ensures (a + b) + c == a + (b + c)
  {
  }

  /** Once the outcomes are known to be disjoint and to fail with one exception only,
      the merge loop either reports that exception or adds every result to `g`. */
  lemma {:induction false} FoldDisjoint(g: VariantMap, rs: seq<Outcome>, e: Error)
    requires Disjoint(rs) && DisjointFrom(g, rs) && ErrorsAre(rs, e)
    ensures FoldMerge(g, rs) == if HasErr(rs) then Err(e) else Ok(g + Union(rs))
    decreases |rs|
  {
    if |rs| > 0 && rs[0].Ok? {
      var tail := rs[1..];
      var c := rs[0].value;
      DropFirst(rs, e);
      DropFirstFrom(g, rs);
      FoldDisjoint(g + c, tail, e);
      if |c| == 0 {
        assert g + c == g;
      } else {
        MergeDisjoint(g, c);
      }
      assert Union(rs) == c + Union(tail);
      MapAddAssociative(g, c, Union(tail));
    } else if |rs| > 0 {
      assert rs[0].Err?;
    } else {
      assert g + Union(rs) == g;
    }
  }

  /** `order` lists every index below `n` exactly once: the order in which the
      workers finish. */
  predicate IsPermutation(order: seq<nat>, n: nat)
  {
    && |order| == n
    && (forall i :: 0 <= i < n ==> order[i] < n)
    && (forall i, j :: 0 <= i < j < n ==> order[i] != order[j])
    && (forall j :: 0 <= j < n ==> Listed(order, j))
  }

  /** Index `j` occurs in `order`. */
  predicate Listed(order: seq<nat>, j: nat)
  {
    exists i :: 0 <= i < |order| && order[i] == j
  }

  /** Where index `j` occurs in a permutation. */
  lemma Position(order: seq<nat>, n: nat, j: nat) returns (i: nat)
    requires IsPermutation(order, n) && j < n
    ensures i < n && order[i] == j
  {
    assert Listed(order, j);
    i :| 0 <= i < |order| && order[i] == j;
  }

  /** The outcomes as they complete. */
  function Reorder(rs: seq<Outcome>, order: seq<nat>): (r: seq<Outcome>)
    requires IsPermutation(order, |rs|)
    ensures |r| == |rs|
    ensures forall i :: 0 <= i < |r| ==> r[i] == rs[order[i]]
  {
    seq(|order|, i requires 0 <= i < |order| => rs[order[i]])
  }

  /** Completion order does not change what the merge loop produces, provided the
      window results do not overlap and fail with one exception only. */
  lemma {:induction false} FoldOrderIndependent(g: VariantMap, rs: seq<Outcome>, order: seq<nat>, e: Error)
    requires IsPermutation(order, |rs|)
    requires Disjoint(rs) && DisjointFrom(g, rs) && ErrorsAre(rs, e)
    ensures FoldMerge(g, Reorder(rs, order)) == FoldMerge(g, rs)
  {
    var qs := Reorder(rs, order);
    assert Disjoint(qs) by {
      forall a, b | 0 <= a < |qs| && 0 <= b < |qs| && a != b && qs[a].Ok? && qs[b].Ok?
        ensures qs[a].value.Keys !! qs[b].value.Keys
      {
        assert order[a] != order[b] by {
          if a < b {} else {}
        }
      }
    }
    assert DisjointFrom(g, qs);
    assert ErrorsAre(qs, e);
    assert HasErr(qs) <==> HasErr(rs) by {
      if HasErr(rs) {
        var j :| 0 <= j < |rs| && rs[j].Err?;
        var i := Position(order, |rs|, j);
        assert qs[i].Err?;
      }
    }
    FoldDisjoint(g, rs, e);
    FoldDisjoint(g, qs, e);
    ReorderUnion(rs, order);
  }

  /** The union of disjoint outcomes does not depend on their order. */
  lemma ReorderUnion(rs: seq<Outcome>, order: seq<nat>)
    requires IsPermutation(order, |rs|)
    requires Disjoint(rs)
    requires Disjoint(Reorder(rs, order))
    ensures Union(Reorder(rs, order)) == Union(rs)
  {
    var qs := Reorder(rs, order);
    var u, v := Union(rs), Union(qs);
    forall k | k in u
      ensures k in v && v[k] == u[k]
    {
      ReorderKeeps(rs, order, k);
    }
    forall k | k in v
      ensures k in u
    {
      ReorderAdds(rs, order, k);
    }
    SameEntries(u, v);
  }

  /** Maps with the same keys and the same value at each key are equal. */
  lemma SameEntries(u: VariantMap, v: VariantMap)
    requires forall k :: k in u ==> k in v && v[k] == u[k]
    requires forall k :: k in v ==> k in u
    ensures u == v
  {
    assert u.Keys == v.Keys;
  }

  /** A key of the union keeps its variant when the outcomes are reordered. */
  lemma ReorderKeeps(rs: seq<Outcome>, order: seq<nat>, k: VariantKey)
    requires IsPermutation(order, |rs|)
    requires Disjoint(rs)
    requires Disjoint(Reorder(rs, order))
    requires k in Union(rs)
    ensures k in Union(Reorder(rs, order)) && Union(Reorder(rs, order))[k] == Union(rs)[k]
  {
    var qs := Reorder(rs, order);
    UnionKeys(rs, k);
    var j :| 0 <= j < |rs| && rs[j].Ok? && k in rs[j].value;
    var i := Position(order, |rs|, j);
    UnionAt(rs, j, k);
    UnionAt(qs, i, k);
  }

  /** Reordering the outcomes adds no key to their union. */
  lemma ReorderAdds(rs: seq<Outcome>, order: seq<nat>, k: VariantKey)
    requires IsPermutation(order, |rs|)
    requires Disjoint(rs)
    requires k in Union(Reorder(rs, order))
    ensures k in Union(rs)
  {
    var qs := Reorder(rs, order);
    UnionKeys(qs, k);
    var i :| 0 <= i < |qs| && qs[i].Ok? && k in qs[i].value;
    UnionAt(rs, order[i], k);
  }

  /** `process_chunk` for every planned window, in submission order; every worker
      reads the same two files. */
  function RunChunks(vcf: Option<seq<Record>>, alignments: seq<Read>, plan: seq<Interval>): (r: seq<Outcome>)
    requires AllWellFormed(alignments)
    ensures |r| == |plan|
    ensures forall i :: 0 <= i < |r| ==> (r[i].Err? <==> vcf.None?)
    ensures forall i, k :: 0 <= i < |r| && r[i].Ok? && k in r[i].value ==>
              k.chrom == plan[i].chrom && plan[i].start <= k.pos < plan[i].end
  {
    seq(|plan|, i requires 0 <= i < |plan| =>
      ProcessChunk(vcf, Some(alignments), plan[i].chrom, plan[i].start, plan[i].end))
  }

  /** Windows that share no position yield results that share no key. */
  lemma RunChunksDisjoint(vcf: Option<seq<Record>>, alignments: seq<Read>, plan: seq<Interval>)
    requires AllWellFormed(alignments)
    requires AllApart(plan)
    ensures Disjoint(RunChunks(vcf, alignments, plan))
  {
    var rs := RunChunks(vcf, alignments, plan);
    forall i, j | 0 <= i < |rs| && 0 <= j < |rs| && i != j && rs[i].Ok? && rs[j].Ok?
      ensures rs[i].value.Keys !! rs[j].value.Keys
    {
      ApartWindowsDisjoint(vcf, alignments, plan[i], plan[j]);
    }
  }

  /** Two windows that share no position report no common key. */
  lemma ApartWindowsDisjoint(vcf: Option<seq<Record>>, alignments: seq<Read>, a: Interval, b: Interval)
    requires AllWellFormed(alignments)
    requires Apart(a, b)
    ensures var ra := ProcessChunk(vcf, Some(alignments), a.chrom, a.start, a.end);
            var rb := ProcessChunk(vcf, Some(alignments), b.chrom, b.start, b.end);
            ra.Ok? && rb.Ok? ==> ra.value.Keys !! rb.value.Keys
  {
  }

  /** Every window fails, if at all, with the same exception: the variant file
      either opens for all of them or for none. */
  lemma RunChunksErrors(vcf: Option<seq<Record>>, alignments: seq<Read>, plan: seq<Interval>)
    requires AllWellFormed(alignments)
    ensures ErrorsAre(RunChunks(vcf, alignments, plan), VcfParsingError)
    ensures HasErr(RunChunks(vcf, alignments, plan)) <==> vcf.None? && |plan| > 0
  {
    var rs := RunChunks(vcf, alignments, plan);
    if vcf.None? && |plan| > 0 {
      assert rs[0].Err?;
    }
  }

  /** The windows the driver submits for an alignment file. */
  function Plan(bam: BamFile): seq<Interval>
  {
    PlanChunks(bam.references, ChunkSize)
  }

  /** The global map after all windows are merged in completion order `order`: the
      variant-file exception when there was a window to fail, otherwise the union of
      all window results. Reference names are distinct, as the dict of line 32 keeps
      them and the SAM format requires. */
  function MergedResult(vcf: Option<seq<Record>>, bam: BamFile, order: seq<nat>): (r: Outcome)
    requires AllWellFormed(bam.alignments)
    requires IsPermutation(order, |Plan(bam)|)
    requires DistinctNames(bam.references)
    ensures r == if vcf.None? && |Plan(bam)| > 0 then Err(VcfParsingError)
                 else Ok(Union(RunChunks(vcf, bam.alignments, Plan(bam))))
  {
    MergedIsUnion(vcf, bam, order);
    FoldMerge(map[], Reorder(RunChunks(vcf, bam.alignments, Plan(bam)), order))
  }

  /** With distinct reference names, merging the window results into an empty map
      in any completion order gives their union, or the variant-file exception when
      there was a window to fail. */
  lemma {:induction false} MergedIsUnion(vcf: Option<seq<Record>>, bam: BamFile, order: seq<nat>)
    requires AllWellFormed(bam.alignments)
    requires IsPermutation(order, |Plan(bam)|)
    requires DistinctNames(bam.references)
    ensures var rs := RunChunks(vcf, bam.alignments, Plan(bam));
            FoldMerge(map[], Reorder(rs, order))
              == if vcf.None? && |Plan(bam)| > 0 then Err(VcfParsingError) else Ok(Union(rs))
  {
    var rs := RunChunks(vcf, bam.alignments, Plan(bam));
    PlanApart(bam.references, ChunkSize);
    RunChunksDisjoint(vcf, bam.alignments, Plan(bam));
    RunChunksErrors(vcf, bam.alignments, Plan(bam));
    FoldFromEmpty(rs, order, VcfParsingError);
  }

  /** From an empty global map, any completion order of disjoint results that fail
      alike gives their union, or their exception. */
  lemma FoldFromEmpty(rs: seq<Outcome>, order: seq<nat>, e: Error)
    requires IsPermutation(order, |rs|)
    requires Disjoint(rs) && ErrorsAre(rs, e)
    ensures FoldMerge(map[], Reorder(rs, order)) == if HasErr(rs) then Err(e) else Ok(Union(rs))
  {
    var g: VariantMap := map[];
    assert DisjointFrom(g, rs);
    FoldOrderIndependent(g, rs, order, e);
    FoldDisjointEmpty(rs, e);
  }

  /** From an empty global map, disjoint results that fail alike give their union. */
  lemma FoldDisjointEmpty(rs: seq<Outcome>, e: Error)
    requires Disjoint(rs) && ErrorsAre(rs, e)
    ensures FoldMerge(map[], rs) == if HasErr(rs) then Err(e) else Ok(Union(rs))
  {
    var g: VariantMap := map[];
    assert DisjointFrom(g, rs);
    FoldDisjoint(g, rs, e);
    EmptyJoin(Union(rs));
  }

  lemma EmptyJoin(m: VariantMap)
    ensures map[] + m == m
  {
  }

  /** The order in which the workers finish does not change the merged outcome. */
  lemma MergedOrderIndependent(vcf: Option<seq<Record>>, bam: BamFile, order1: seq<nat>, order2: seq<nat>)
    requires AllWellFormed(bam.alignments)
    requires IsPermutation(order1, |Plan(bam)|) && IsPermutation(order2, |Plan(bam)|)
    requires DistinctNames(bam.references)
    ensures MergedResult(vcf, bam, order1) == MergedResult(vcf, bam, order2)
  {
  }

  /** Key `k` lies on a reference sequence of the alignment file, below its length. */
  predicate OnReference(references: seq<(string, nat)>, k: VariantKey)
  {
    exists j :: 0 <= j < |references| && references[j].0 == k.chrom && k.pos < references[j].1
  }

  /** Some record of the variant file is a biallelic SNV at key `k`. */
  predicate HasSnv(recs: seq<Record>, k: VariantKey)
  {
    exists i :: 0 <= i < |recs| && SnvAt(recs[i], k.chrom, k.pos)
  }

  /** The merged map holds exactly the biallelic SNVs that lie on a reference
      sequence of the alignment file, and each variant is filed under its own key. */
  lemma MergedKeys(vcf: Option<seq<Record>>, bam: BamFile, order: seq<nat>, k: VariantKey)
    requires AllWellFormed(bam.alignments)
    requires IsPermutation(order, |Plan(bam)|)
    requires DistinctNames(bam.references)
    requires MergedResult(vcf, bam, order).Ok?
    ensures vcf.Some? || |Plan(bam)| == 0
    ensures vcf.Some? ==>
              (k in MergedResult(vcf, bam, order).value <==>
                 OnReference(bam.references, k) && HasSnv(vcf.value, k))
  {
    var rs := RunChunks(vcf, bam.alignments, Plan(bam));
    if vcf.Some? {
      UnionKeys(rs, k);
      if Reports(rs, k) {
        ReportedKey(vcf.value, bam, k);
      }
      if OnReference(bam.references, k) && HasSnv(vcf.value, k) {
        SnvReported(vcf.value, bam, k);
      }
    }
  }

  /** A key some window reports is an SNV of the variant file on a reference sequence. */
  lemma ReportedKey(recs: seq<Record>, bam: BamFile, k: VariantKey)
    requires AllWellFormed(bam.alignments)
    requires Reports(RunChunks(Some(recs), bam.alignments, Plan(bam)), k)
    ensures OnReference(bam.references, k) && HasSnv(recs, k)
  {
    var rs := RunChunks(Some(recs), bam.alignments, Plan(bam));
    var i :| 0 <= i < |rs| && rs[i].Ok? && k in rs[i].value;
    var w := Plan(bam)[i];
    assert WithinSome(w, bam.references);
    var j :| 0 <= j < |bam.references| && bam.references[j].0 == w.chrom && w.end <= bam.references[j].1;
    assert OnReference(bam.references, k);
  }

  /** An SNV on a reference sequence is reported by the window covering it. */
  lemma SnvReported(recs: seq<Record>, bam: BamFile, k: VariantKey)
    requires AllWellFormed(bam.alignments)
    requires OnReference(bam.references, k) && HasSnv(recs, k)
    ensures Reports(RunChunks(Some(recs), bam.alignments, Plan(bam)), k)
  {
    var rs := RunChunks(Some(recs), bam.alignments, Plan(bam));
    var j :| 0 <= j < |bam.references| && bam.references[j].0 == k.chrom && k.pos < bam.references[j].1;
    PlanCovers(bam.references, ChunkSize, j, k.pos);
    var i :| 0 <= i < |Plan(bam)| && Covers(Plan(bam)[i], k.chrom, k.pos);
    var w := Plan(bam)[i];
    LoadedInWindow(recs, w, k);
    CountedInWindow(recs, bam.alignments, w, k);
    assert rs[i] == ProcessChunk(Some(recs), Some(bam.alignments), w.chrom, w.start, w.end);
  }

  /** A window covering an SNV's position loads that SNV. */
  lemma LoadedInWindow(recs: seq<Record>, w: Interval, k: VariantKey)
    requires Covers(w, k.chrom, k.pos) && HasSnv(recs, k)
    ensures k in LoadVariantsChunk(Some(recs), w.chrom, w.start, w.end).value
  {
    var t :| 0 <= t < |recs| && SnvAt(recs[t], k.chrom, k.pos);
    assert SnvAt(recs[t], w.chrom, k.pos);
  }

  /** A loaded variant is reported by its window. */
  lemma CountedInWindow(recs: seq<Record>, alignments: seq<Read>, w: Interval, k: VariantKey)
    requires AllWellFormed(alignments)
    requires k in LoadVariantsChunk(Some(recs), w.chrom, w.start, w.end).value
    ensures var r := ProcessChunk(Some(recs), Some(alignments), w.chrom, w.start, w.end);
            r.Ok? && k in r.value
  {
  }

  /** Every merged variant carries the alleles of the last qualifying record of the
      variant file at its key, and its count is the genome-wide count of those
      alleles: no read is counted twice across windows and none is lost at a
      window border. */
  lemma MergedCounts(vcf: Option<seq<Record>>, bam: BamFile, order: seq<nat>, k: VariantKey)
    requires AllWellFormed(bam.alignments)
    requires IsPermutation(order, |Plan(bam)|)
    requires DistinctNames(bam.references)
    requires MergedResult(vcf, bam, order).Ok? && k in MergedResult(vcf, bam, order).value
    ensures var v := MergedResult(vcf, bam, order).value[k];
            v.key == k && |v.ref| == 1 && |v.alt| == 1
            && v.counts == GenomeTally(v, bam.alignments)
    ensures vcf.Some?
    ensures forall j :: LastSnvAt(vcf.value, j, k.chrom, k.pos) ==>
              var w := NewVariant(k, vcf.value[j]);
              MergedResult(vcf, bam, order).value[k] == w.(counts := GenomeTally(w, bam.alignments))
  {
    var rs := RunChunks(vcf, bam.alignments, Plan(bam));
    var plan := Plan(bam);
    PlanApart(bam.references, ChunkSize);
    RunChunksDisjoint(vcf, bam.alignments, plan);
    UnionKeys(rs, k);
    var i :| 0 <= i < |rs| && rs[i].Ok? && k in rs[i].value;
    UnionAt(rs, i, k);
    ProcessChunkCounts(vcf, Some(bam.alignments), plan[i].chrom, plan[i].start, plan[i].end, k);
    var loaded := LoadVariantsChunk(vcf, plan[i].chrom, plan[i].start, plan[i].end).value;
    GenomeTallyAlleles(loaded[k], rs[i].value[k], bam.alignments);
    assert k in loaded;
  }

  /** `pipeline`: read the reference lengths from the alignment file (`None`: it
      cannot be opened), count every window, merge the results in completion
      order `order`, and produce the lines of the report. */
  function RunPipeline(vcf: Option<seq<Record>>, bam: Option<BamFile>, order: seq<nat>): (r: Result<seq<string>, Error>)
    requires bam.Some? ==> AllWellFormed(bam.value.alignments) && IsPermutation(order, |Plan(bam.value)|)
    requires bam.Some? ==> DistinctNames(bam.value.references)
    ensures bam.None? ==> r == Err(BamNotFound)
    ensures r.Ok? ==> bam.Some? && |r.value| > 0 && r.value[0] == Header
    ensures r.Ok? ==> MergedResult(vcf, bam.value, order).Ok?
                      && |r.value| == |MergedResult(vcf, bam.value, order).value| + 1
  {
    if bam.None? then Err(BamNotFound)
    else
      match MergedResult(vcf, bam.value, order)
      case Err(e) => Err(e)
      case Ok(m) => Ok(WriteResults(m))
  }

  /** The report does not depend on the order in which the workers finish. */
  lemma PipelineOrderIndependent(vcf: Option<seq<Record>>, bam: Option<BamFile>, order1: seq<nat>, order2: seq<nat>)
    requires bam.Some? ==> AllWellFormed(bam.value.alignments)
    requires bam.Some? ==> IsPermutation(order1, |Plan(bam.value)|) && IsPermutation(order2, |Plan(bam.value)|)
    requires bam.Some? ==> DistinctNames(bam.value.references)
    ensures RunPipeline(vcf, bam, order1) == RunPipeline(vcf, bam, order2)
  {
    if bam.Some? {
      MergedOrderIndependent(vcf, bam.value, order1, order2);
    }
  }

  /** The run fails exactly when the alignment file cannot be opened, or when the
      variant file cannot be opened and there is a window to count; the exception
      is the one for the file that failed. */
  lemma PipelineFails(vcf: Option<seq<Record>>, bam: Option<BamFile>, order: seq<nat>)
    requires bam.Some? ==> AllWellFormed(bam.value.alignments) && IsPermutation(order, |Plan(bam.value)|)
    requires bam.Some? ==> DistinctNames(bam.value.references)
    ensures var r := RunPipeline(vcf, bam, order);
            && (r.Err? <==> bam.None? || (vcf.None? && |Plan(bam.value)| > 0))
            && (r.Err? ==> r.error == if bam.None? then BamNotFound else VcfParsingError)
  {
  }

  /** No reference name of the alignment file contains a tab. */
  predicate TabFreeNames(references: seq<(string, nat)>)
  {
    forall j :: 0 <= j < |references| ==> '\t' !in references[j].0
  }

  /** The report read back: after the header, one row for each biallelic SNV of the
      variant file that lies on a reference sequence, each exactly once, in
      ascending (chromosome, position) order, with its genome-wide counts. */
  lemma {:induction false} PipelineReport(recs: seq<Record>, bam: BamFile, order: seq<nat>)
    requires AllWellFormed(bam.alignments) && IsPermutation(order, |Plan(bam)|)
    requires DistinctNames(bam.references) && TabFreeNames(bam.references)
    requires RunPipeline(Some(recs), Some(bam), order).Ok?
    ensures var lines := RunPipeline(Some(recs), Some(bam), order).value;
            var rows := ParseRows(lines[1..]);
            var m := MergedResult(Some(recs), bam, order).value;
            && rows.Some?
            && (forall k :: (exists i :: 0 <= i < |rows.value| && rows.value[i].0 == k) <==>
                  OnReference(bam.references, k) && HasSnv(recs, k))
            && (forall i :: 0 <= i < |rows.value| ==>
                  rows.value[i].0 in m && rows.value[i].1 == GenomeTally(m[rows.value[i].0], bam.alignments))
            && (forall i, j :: 0 <= i < j < |rows.value| ==> KeyLt(rows.value[i].0, rows.value[j].0))
            && (forall k, j :: k in m && LastSnvAt(recs, j, k.chrom, k.pos) ==>
                  m[k].ref == recs[j].ref && m[k].alt == recs[j].alts[0])
  {
    var m := MergedResult(Some(recs), bam, order).value;
    assert RunPipeline(Some(recs), Some(bam), order).value == WriteResults(m);
    MergedTabFree(recs, bam, order);
    MergedKeysAll(recs, bam, order);
    MergedCountsAll(recs, bam, order);
    ReportRows(m, recs, bam);
  }

  /** The report of a map that holds exactly the on-reference SNVs, each with its
      genome-wide counts, reads back as those SNVs in ascending order. */
  lemma ReportRows(m: VariantMap, recs: seq<Record>, bam: BamFile)
    requires AllWellFormed(bam.alignments) && TabFree(m)
    requires forall k :: k in m <==> OnReference(bam.references, k) && HasSnv(recs, k)
    requires forall k :: k in m ==> m[k].counts == GenomeTally(m[k], bam.alignments)
    ensures var rows := ParseRows(WriteResults(m)[1..]);
            && rows.Some?
            && (forall k :: (exists i :: 0 <= i < |rows.value| && rows.value[i].0 == k) <==>
                  OnReference(bam.references, k) && HasSnv(recs, k))
            && (forall i :: 0 <= i < |rows.value| ==>
                  rows.value[i].0 in m && rows.value[i].1 == GenomeTally(m[rows.value[i].0], bam.alignments))
            && (forall i, j :: 0 <= i < j < |rows.value| ==> KeyLt(rows.value[i].0, rows.value[j].0))
  {
    WriteReadBack(m);
  }

  /** Every merged key lies on a reference sequence, so its chromosome name holds no tab. */
  lemma MergedTabFree(recs: seq<Record>, bam: BamFile, order: seq<nat>)
    requires AllWellFormed(bam.alignments) && IsPermutation(order, |Plan(bam)|)
    requires DistinctNames(bam.references) && TabFreeNames(bam.references)
    requires MergedResult(Some(recs), bam, order).Ok?
    ensures TabFree(MergedResult(Some(recs), bam, order).value)
  {
    var m := MergedResult(Some(recs), bam, order).value;
    forall k | k in m
      ensures '\t' !in k.chrom
    {
      MergedKeys(Some(recs), bam, order, k);
      var j :| 0 <= j < |bam.references| && bam.references[j].0 == k.chrom && k.pos < bam.references[j].1;
    }
  }

  /** `MergedKeys` for every key at once. */
  lemma MergedKeysAll(recs: seq<Record>, bam: BamFile, order: seq<nat>)
    requires AllWellFormed(bam.alignments) && IsPermutation(order, |Plan(bam)|)
    requires DistinctNames(bam.references)
    requires MergedResult(Some(recs), bam, order).Ok?
    ensures forall k :: k in MergedResult(Some(recs), bam, order).value <==>
              OnReference(bam.references, k) && HasSnv(recs, k)
  {
    forall k
      ensures k in MergedResult(Some(recs), bam, order).value <==> OnReference(bam.references, k) && HasSnv(recs, k)
    {
      MergedKeys(Some(recs), bam, order, k);
    }
  }

  /** `MergedCounts` for every key at once. */
  lemma MergedCountsAll(recs: seq<Record>, bam: BamFile, order: seq<nat>)
    requires AllWellFormed(bam.alignments) && IsPermutation(order, |Plan(bam)|)
    requires DistinctNames(bam.references)
    requires MergedResult(Some(recs), bam, order).Ok?
    ensures var m := MergedResult(Some(recs), bam, order).value;
            && (forall k :: k in m ==> m[k].counts == GenomeTally(m[k], bam.alignments))
            && (forall k, j :: k in m && LastSnvAt(recs, j, k.chrom, k.pos) ==>
                  m[k].ref == recs[j].ref && m[k].alt == recs[j].alts[0])
  {
    var m := MergedResult(Some(recs), bam, order).value;
    forall k | k in m
      ensures m[k].counts == GenomeTally(m[k], bam.alignments)
      ensures forall j :: LastSnvAt(recs, j, k.chrom, k.pos) ==> m[k].ref == recs[j].ref && m[k].alt == recs[j].alts[0]
    {
      MergedCounts(Some(recs), bam, order, k);
    }
  }
}
