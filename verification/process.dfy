/** process.py: the per-interval read scanner (`process_chunk`) and the
    result merger (`merge_results`). */
module Process {
  import opened Wrappers
  import opened HarpTypes
  import opened VariantSource
  import opened ChunkLoader

  /** A match-only aligned pair: a read offset aligned to a 0-based reference position. */
  datatype AlignedPair = AlignedPair(readIdx: nat, refIdx: nat)

  /** An aligned read as the alignment library exposes it: chromosome, reference span
      [refStart, refEnd), flags, the optional `HP` tag, bases and match-only aligned pairs. */
  datatype Read = Read(
    chrom: string,
    refStart: nat,
    refEnd: nat,
    isSecondary: bool,
    isSupplementary: bool,
    hp: Option<int>,
    querySequence: string,
    alignedPairs: seq<AlignedPair>)

  /** The two haplotypes a read can be assigned to. */
  type Haplotype = h: int | h == 1 || h == 2 witness 1

  /** Every aligned pair indexes a stored base of the read and lies inside its reference
      span. The span part is how the alignment library defines the span; the base part
      fails for a read stored without its sequence (SEQ `*`), a case this model excludes. */
  predicate WellFormedRead(read: Read)
  {
    forall i :: 0 <= i < |read.alignedPairs| ==>
      read.alignedPairs[i].readIdx < |read.querySequence|
      && read.refStart <= read.alignedPairs[i].refIdx < read.refEnd
  }

  predicate AllWellFormed(rs: seq<Read>)
  {
    forall i :: 0 <= i < |rs| ==> WellFormedRead(rs[i])
  }

  /** The read filter of lines 34-41: primary alignment with an `HP` tag of 1 or 2. */
  predicate Counted(read: Read)
  {
    && !read.isSecondary
    && !read.isSupplementary
    && read.hp.Some?
    && (read.hp.value == 1 || read.hp.value == 2)
  }

  /** The effect one observed base has on a variant's counts, field by field:
      one reference or alternate observation on the read's haplotype, or nothing. */
  function Observation(v: Variant, hap: Haplotype, base: string): Counts
  {
    var isRef := base == v.ref;
    var isAlt := !isRef && base == v.alt;
    Counts(
      if isRef && hap == 1 then 1 else 0,
      if isAlt && hap == 1 then 1 else 0,
      if isRef && hap == 2 then 1 else 0,
      if isAlt && hap == 2 then 1 else 0)
  }

  /** Lines 44-60 for one aligned pair of a counted read with haplotype `hap`. */
  function ObservePair(vs: VariantMap, chrom: string, hap: Haplotype, read: Read, pair: AlignedPair)
    : (r: VariantMap)
    requires pair.readIdx < |read.querySequence|
    ensures r.Keys == vs.Keys
    ensures forall k :: k in vs && k != VariantKey(chrom, pair.refIdx) ==> r[k] == vs[k]
    ensures var key := VariantKey(chrom, pair.refIdx);
            var base := [read.querySequence[pair.readIdx]];
            key in vs ==>
              && r[key].key == vs[key].key && r[key].ref == vs[key].ref && r[key].alt == vs[key].alt
              && CountsLe(vs[key].counts, r[key].counts)
              && Total(r[key].counts) == Total(vs[key].counts) + (if base == vs[key].ref || base == vs[key].alt then 1 else 0)
  {
    var key := VariantKey(chrom, pair.refIdx);
    if key !in vs then vs
    else vs[key := vs[key].(counts := Add(vs[key].counts, Observation(vs[key], hap, [read.querySequence[pair.readIdx]])))]
  }

  /** An observation adds exactly one to exactly one field when the base is one of
      the two alleles (the reference taking precedence), and nothing otherwise. */
  lemma ObservationIsUnit(v: Variant, hap: Haplotype, base: string)
    ensures Total(Observation(v, hap, base)) == if base == v.ref || base == v.alt then 1 else 0
    ensures base == v.ref ==>
              Observation(v, hap, base) == (if hap == 1 then Counts(1, 0, 0, 0) else Counts(0, 0, 1, 0))
    ensures base != v.ref && base == v.alt ==>
              Observation(v, hap, base) == (if hap == 1 then Counts(0, 1, 0, 0) else Counts(0, 0, 0, 1))
  {
  }

  /** Lines 43-60: the first `n` aligned pairs of a counted read, in order. */
  function ScanPairs(vs: VariantMap, chrom: string, hap: Haplotype, read: Read, n: nat): (r: VariantMap)
    requires WellFormedRead(read)
    requires n <= |read.alignedPairs|
    ensures r.Keys == vs.Keys
  {
    if n == 0 then vs
    else
      var acc := ScanPairs(vs, chrom, hap, read, n - 1);
      ObservePair(acc, chrom, hap, read, read.alignedPairs[n - 1])
  }

  /** One iteration of the read loop (lines 33-60): filtered reads change nothing. */
  function ScanRead(vs: VariantMap, chrom: string, read: Read): (r: VariantMap)
    requires WellFormedRead(read)
    ensures r.Keys == vs.Keys
    ensures !Counted(read) ==> r == vs
  {
    if read.isSecondary || read.isSupplementary then vs
    else if read.hp.None? then vs
    else if read.hp.value != 1 && read.hp.value != 2 then vs
    else ScanPairs(vs, chrom, read.hp.value, read, |read.alignedPairs|)
  }

  /** The read loop of lines 33-60 over the fetched reads, in order. */
  function ScanReads(vs: VariantMap, chrom: string, rs: seq<Read>): (r: VariantMap)
    requires AllWellFormed(rs)
    ensures r.Keys == vs.Keys
  {
    if |rs| == 0 then vs
    else
      var n := |rs| - 1;
      ScanRead(ScanReads(vs, chrom, rs[..n]), chrom, rs[n])
  }

  /** Expected tally: what the first `n` pairs of a read with haplotype `hap`
      say about variant `v`, summed pair by pair. */
  function PairsTally(v: Variant, chrom: string, hap: Haplotype, read: Read, n: nat): Counts
    requires WellFormedRead(read)
    requires n <= |read.alignedPairs|
  {
    if n == 0 then ZeroCounts()
    else
      Add(PairsTally(v, chrom, hap, read, n - 1), PairObservation(v, chrom, hap, read, read.alignedPairs[n - 1]))
  }

  /** Expected tally: what one read says about variant `v`. */
  function ReadTally(v: Variant, chrom: string, read: Read): Counts
    requires WellFormedRead(read)
  {
    if Counted(read) then PairsTally(v, chrom, read.hp.value, read, |read.alignedPairs|)
    else ZeroCounts()
  }

  /** Expected tally: what a sequence of reads says about variant `v`. */
  function ReadsTally(v: Variant, chrom: string, rs: seq<Read>): Counts
    requires AllWellFormed(rs)
  {
    if |rs| == 0 then ZeroCounts()
    else
      var n := |rs| - 1;
      Add(ReadsTally(v, chrom, rs[..n]), ReadTally(v, chrom, rs[n]))
  }

  /** After `n` pairs, the variant at `k` holds its initial counts plus the
      expected tally of those pairs, and nothing else about it has changed. */
  predicate PairsTallied(vs: VariantMap, chrom: string, hap: Haplotype, read: Read, n: nat, k: VariantKey)
    requires WellFormedRead(read)
    requires n <= |read.alignedPairs|
    requires k in vs
  {
    ScanPairs(vs, chrom, hap, read, n)[k] == vs[k].(counts := Add(vs[k].counts, PairsTally(vs[k], chrom, hap, read, n)))
  }

  /** Scanning pairs adds to each variant exactly the observations made at its position. */
  lemma {:induction false} ScanPairsTally(vs: VariantMap, chrom: string, hap: Haplotype, read: Read, n: nat, k: VariantKey)
    requires WellFormedRead(read)
    requires n <= |read.alignedPairs|
    requires k in vs && vs[k].key == k
    ensures ScanPairs(vs, chrom, hap, read, n)[k]
              == vs[k].(counts := Add(vs[k].counts, PairsTally(vs[k], chrom, hap, read, n)))
  {
    ScanPairsTallied(vs, chrom, hap, read, n, k);
  }

  lemma {:induction false} ScanPairsTallied(vs: VariantMap, chrom: string, hap: Haplotype, read: Read, n: nat, k: VariantKey)
    requires WellFormedRead(read)
    requires n <= |read.alignedPairs|
    requires k in vs && vs[k].key == k
    ensures PairsTallied(vs, chrom, hap, read, n, k)
    decreases n, 1
  {
    if n == 0 {
      AddZeroIdentity(vs[k].counts);
    } else {
      ScanPairsTalliedBefore(vs, chrom, hap, read, n, k);
      ScanPairsTallyStep(vs, chrom, hap, read, n, k);
    }
  }

  /** The induction hypothesis of `ScanPairsTallied`: the property for `n - 1` pairs. */
  lemma {:induction false} ScanPairsTalliedBefore(vs: VariantMap, chrom: string, hap: Haplotype, read: Read, n: nat, k: VariantKey)
    requires WellFormedRead(read)
    requires 0 < n <= |read.alignedPairs|
    requires k in vs && vs[k].key == k
    ensures PairsTallied(vs, chrom, hap, read, n - 1, k)
    decreases n, 0
  {
    ScanPairsTallied(vs, chrom, hap, read, n - 1, k);
  }

  /** The tally property for `n - 1` pairs extends to `n` pairs. */
  lemma ScanPairsTallyStep(vs: VariantMap, chrom: string, hap: Haplotype, read: Read, n: nat, k: VariantKey)
    requires WellFormedRead(read)
    requires 0 < n <= |read.alignedPairs|
    requires k in vs && vs[k].key == k
    requires PairsTallied(vs, chrom, hap, read, n - 1, k)
    ensures PairsTallied(vs, chrom, hap, read, n, k)
  {
    var m := n - 1;
    var acc := ScanPairs(vs, chrom, hap, read, m);
    var pair := read.alignedPairs[m];
    var tally := PairsTally(vs[k], chrom, hap, read, m);
    var seen := PairObservation(vs[k], chrom, hap, read, pair);
    ObservePairAt(acc, vs[k], chrom, hap, read, pair, k);
    PairsTallyUnfold(vs[k], chrom, hap, read, n);
    AddAssociative(vs[k].counts, tally, seen);
  }

  lemma PairsTallyUnfold(v: Variant, chrom: string, hap: Haplotype, read: Read, n: nat)
    requires WellFormedRead(read)
    requires 0 < n <= |read.alignedPairs|
    ensures PairsTally(v, chrom, hap, read, n)
              == Add(PairsTally(v, chrom, hap, read, n - 1), PairObservation(v, chrom, hap, read, read.alignedPairs[n - 1]))
  {
  }

  /** What one aligned pair says about variant `v`. */
  function PairObservation(v: Variant, chrom: string, hap: Haplotype, read: Read, pair: AlignedPair): Counts
    requires pair.readIdx < |read.querySequence|
  {
    if VariantKey(chrom, pair.refIdx) == v.key
    then Observation(v, hap, [read.querySequence[pair.readIdx]])
    else ZeroCounts()
  }

  /** One aligned pair adds its observation to the variant at `k` (whose key is `k`). */
  lemma ObservePairAt(acc: VariantMap, v: Variant, chrom: string, hap: Haplotype, read: Read, pair: AlignedPair, k: VariantKey)
    requires pair.readIdx < |read.querySequence|
    requires k in acc && v.key == k
    requires acc[k].key == k && acc[k].ref == v.ref && acc[k].alt == v.alt
    ensures ObservePair(acc, chrom, hap, read, pair)[k]
              == acc[k].(counts := Add(acc[k].counts, PairObservation(v, chrom, hap, read, pair)))
  {
    if VariantKey(chrom, pair.refIdx) != k {
      AddZeroIdentity(acc[k].counts);
    }
  }

  /** After the reads `rs`, the variant at `k` holds its initial counts plus their
      expected tally, and nothing else about it has changed. */
  predicate ReadsTallied(vs: VariantMap, chrom: string, rs: seq<Read>, k: VariantKey)
    requires AllWellFormed(rs)
    requires k in vs
  {
    ScanReads(vs, chrom, rs)[k] == vs[k].(counts := Add(vs[k].counts, ReadsTally(vs[k], chrom, rs)))
  }

  /** Scanning reads adds to each variant exactly the expected tally of those reads:
      no observation is lost and none is counted twice. */
  lemma {:induction false} ScanReadsTally(vs: VariantMap, chrom: string, rs: seq<Read>, k: VariantKey)
    requires AllWellFormed(rs)
    requires k in vs && vs[k].key == k
    ensures ScanReads(vs, chrom, rs)[k] == vs[k].(counts := Add(vs[k].counts, ReadsTally(vs[k], chrom, rs)))
  {
    if |rs| == 0 {
      AddZeroIdentity(vs[k].counts);
    } else {
      var n := |rs| - 1;
      ScanReadsTally(vs, chrom, rs[..n], k);
      ScanReadsTallyStep(vs, chrom, rs, k);
    }
  }

  /** The tally property for all but the last read extends to all reads. */
  lemma ScanReadsTallyStep(vs: VariantMap, chrom: string, rs: seq<Read>, k: VariantKey)
    requires AllWellFormed(rs) && |rs| > 0
    requires k in vs && vs[k].key == k
    requires ReadsTallied(vs, chrom, rs[..|rs| - 1], k)
    ensures ReadsTallied(vs, chrom, rs, k)
  {
    var n := |rs| - 1;
    var acc := ScanReads(vs, chrom, rs[..n]);
    assert WellFormedRead(rs[n]);
    ScanReadAt(acc, vs[k], chrom, rs[n], k);
    AddAssociative(vs[k].counts, ReadsTally(vs[k], chrom, rs[..n]), ReadTally(vs[k], chrom, rs[n]));
  }

  /** One read adds its expected tally to the variant at `k`. */
  lemma ScanReadAt(acc: VariantMap, v: Variant, chrom: string, read: Read, k: VariantKey)
    requires WellFormedRead(read)
    requires k in acc && v.key == k
    requires acc[k].key == k && acc[k].ref == v.ref && acc[k].alt == v.alt
    ensures ScanRead(acc, chrom, read)[k] == acc[k].(counts := Add(acc[k].counts, ReadTally(v, chrom, read)))
  {
    if Counted(read) {
      ScanPairsTally(acc, chrom, read.hp.value, read, |read.alignedPairs|, k);
      PairsTallyAlleles(acc[k], v, chrom, read.hp.value, read, |read.alignedPairs|);
    } else {
      AddZeroIdentity(acc[k].counts);
    }
  }

  /** The expected tally depends on a variant's key and alleles only, not on its counts. */
  lemma {:induction false} PairsTallyAlleles(a: Variant, b: Variant, chrom: string, hap: Haplotype, read: Read, n: nat)
    requires WellFormedRead(read)
    requires n <= |read.alignedPairs|
    requires a.key == b.key && a.ref == b.ref && a.alt == b.alt
    ensures PairsTally(a, chrom, hap, read, n) == PairsTally(b, chrom, hap, read, n)
  {
    if n > 0 {
      PairsTallyAlleles(a, b, chrom, hap, read, n - 1);
    }
  }

  /** The read overlaps [start, end) of `chrom`: the reads a region fetch returns. */
  predicate ReadOverlaps(read: Read, chrom: string, start: nat, end: nat)
  {
    read.chrom == chrom && read.refStart < end && start < read.refEnd
  }

  /** Region query on the alignment file: the overlapping reads, in file order. */
  function FetchReads(rs: seq<Read>, chrom: string, start: nat, end: nat): (r: seq<Read>)
    requires AllWellFormed(rs)
    ensures AllWellFormed(r)
    ensures forall x :: x in r <==> x in rs && ReadOverlaps(x, chrom, start, end)
  {
    if |rs| == 0 then []
    else
      var n := |rs| - 1;
      assert rs == rs[..n] + [rs[n]];
      var pre := FetchReads(rs[..n], chrom, start, end);
      if ReadOverlaps(rs[n], chrom, start, end) then
        assert WellFormedRead(rs[n]);
        pre + [rs[n]]
      else
        pre
  }

  /** `process_chunk`: load the interval's variants, stop early when there are none,
      otherwise count every fetched read.  `None` stands for a file that cannot be opened. */
  function ProcessChunk(vcf: Option<seq<Record>>, bam: Option<seq<Read>>, chrom: string, start: nat, end: nat)
    : (r: Result<VariantMap, Error>)
    requires bam.Some? ==> AllWellFormed(bam.value)
    ensures vcf.None? ==> r == Err(VcfParsingError)
    ensures vcf.Some? && LoadVariantsChunk(vcf, chrom, start, end).value == map[] ==> r == Ok(map[])
    ensures r.Err? ==> r.error == (if vcf.None? then VcfParsingError else BamNotFound)
    ensures vcf.Some? && bam.None? ==> (r.Ok? <==> LoadVariantsChunk(vcf, chrom, start, end).value == map[])
    ensures vcf.Some? && bam.Some? ==> r.Ok?
    ensures r.Ok? ==> vcf.Some? && r.value.Keys == LoadVariantsChunk(vcf, chrom, start, end).value.Keys
    ensures r.Ok? ==> forall k :: k in r.value ==> k.chrom == chrom && start <= k.pos < end
  {
    var loaded := LoadVariantsChunk(vcf, chrom, start, end);
    if loaded.Err? then Err(loaded.error)
    else if |loaded.value| == 0 then Ok(map[])
    else if bam.None? then Err(BamNotFound)
    else Ok(ScanReads(loaded.value, chrom, FetchReads(bam.value, chrom, start, end)))
  }

  /** Expected tally over a whole alignment file: every read on the variant's
      chromosome, whatever interval it was fetched for. */
  function GenomeTally(v: Variant, rs: seq<Read>): Counts
    requires AllWellFormed(rs)
  {
    if |rs| == 0 then ZeroCounts()
    else
      var n := |rs| - 1;
      Add(GenomeTally(v, rs[..n]), if rs[n].chrom == v.key.chrom then ReadTally(v, v.key.chrom, rs[n]) else ZeroCounts())
  }

  /** Every count `process_chunk` reports is exactly the genome-wide expected tally
      of its variant: fetching by region neither drops a read that informs the
      variant nor counts one twice, and no count starts from anything but zero. */
  lemma {:induction false} ProcessChunkCounts(vcf: Option<seq<Record>>, bam: Option<seq<Read>>, chrom: string, start: nat, end: nat, k: VariantKey)
    requires bam.Some? ==> AllWellFormed(bam.value)
    requires ProcessChunk(vcf, bam, chrom, start, end).Ok?
    requires k in ProcessChunk(vcf, bam, chrom, start, end).value
    ensures bam.Some?
    ensures var loaded := LoadVariantsChunk(vcf, chrom, start, end).value;
            k in loaded
            && ProcessChunk(vcf, bam, chrom, start, end).value[k]
                 == loaded[k].(counts := GenomeTally(loaded[k], bam.value))
  {
    var loaded := LoadVariantsChunk(vcf, chrom, start, end).value;
    var result := ProcessChunk(vcf, bam, chrom, start, end).value;
    assert k in loaded && loaded[k].key == k && k.chrom == chrom && start <= k.pos < end;
    assert loaded[k].counts == ZeroCounts();
    assert |loaded| != 0;
    var fetched := FetchReads(bam.value, chrom, start, end);
    assert result == ScanReads(loaded, chrom, fetched);
    ScanReadsTally(loaded, chrom, fetched, k);
    AddZeroIdentity(ReadsTally(loaded[k], chrom, fetched));
    FetchedTally(loaded[k], bam.value, start, end);
  }

  /** The genome-wide count depends on a variant's key and alleles only. */
  lemma {:induction false} GenomeTallyAlleles(a: Variant, b: Variant, rs: seq<Read>)
    requires AllWellFormed(rs)
    requires a.key == b.key && a.ref == b.ref && a.alt == b.alt
    ensures GenomeTally(a, rs) == GenomeTally(b, rs)
  {
    if |rs| > 0 {
      var n := |rs| - 1;
      GenomeTallyAlleles(a, b, rs[..n]);
      assert WellFormedRead(rs[n]);
      if Counted(rs[n]) {
        PairsTallyAlleles(a, b, a.key.chrom, rs[n].hp.value, rs[n], |rs[n].alignedPairs|);
      }
    }
  }

  /** For a variant inside [start, end), counting the reads fetched for that interval
      gives the genome-wide count. */
  lemma {:induction false} FetchedTally(v: Variant, rs: seq<Read>, start: nat, end: nat)
    requires AllWellFormed(rs)
    requires start <= v.key.pos < end
    ensures ReadsTally(v, v.key.chrom, FetchReads(rs, v.key.chrom, start, end)) == GenomeTally(v, rs)
  {
    var chrom := v.key.chrom;
    if |rs| > 0 {
      var n := |rs| - 1;
      var read := rs[n];
      var pre := FetchReads(rs[..n], chrom, start, end);
      FetchedTally(v, rs[..n], start, end);
      assert WellFormedRead(read);
      if ReadOverlaps(read, chrom, start, end) {
        assert FetchReads(rs, chrom, start, end) == pre + [read];
        assert (pre + [read])[..|pre|] == pre;
      } else {
        assert FetchReads(rs, chrom, start, end) == pre;
        if read.chrom == chrom && Counted(read) {
          PairsTallyMisses(v, chrom, read.hp.value, read, |read.alignedPairs|);
        }
        AddZeroIdentity(GenomeTally(v, rs[..n]));
      }
    }
  }

  /** A read whose reference span misses the variant's position says nothing about it. */
  lemma {:induction false} PairsTallyMisses(v: Variant, chrom: string, hap: Haplotype, read: Read, n: nat)
    requires WellFormedRead(read)
    requires n <= |read.alignedPairs|
    requires v.key.pos < read.refStart || read.refEnd <= v.key.pos
    ensures PairsTally(v, chrom, hap, read, n) == ZeroCounts()
  {
    if n > 0 {
      PairsTallyMisses(v, chrom, hap, read, n - 1);
    }
  }

  /** Every key present in both maps carries variants that may be merged. */
  predicate Compatible(g: VariantMap, c: VariantMap)
  {
    forall k :: k in g && k in c ==> Mergeable(g[k], c[k])
  }

  /** The variant `merge_results` leaves at key `k`: the chunk's variant when the key
      is new, the global one when the chunk lacks the key, their merge otherwise. */
  function MergeAt(g: VariantMap, c: VariantMap, k: VariantKey): Variant
    requires k in g || k in c
    requires k in g && k in c ==> Mergeable(g[k], c[k])
  {
    if k !in g then c[k]
    else if k !in c then g[k]
    else MergeVariant(g[k], c[k]).value
  }

  /** `merge_results` as a map-valued function: it fails exactly when some shared key
      carries variants that `Variant.__iadd__` refuses. */
  function MergeResults(g: VariantMap, c: VariantMap): (r: Result<VariantMap, Error>)
    ensures r.Ok? <==> Compatible(g, c)
    ensures r.Err? ==> r.error == InvalidMerge
    ensures r.Ok? ==> r.value.Keys == g.Keys + c.Keys
    ensures r.Ok? ==> forall k :: k in g && k !in c ==> r.value[k] == g[k]
    ensures r.Ok? ==> forall k :: k in c && k !in g ==> r.value[k] == c[k]
    ensures r.Ok? ==> forall k :: k in g && k in c ==>
              r.value[k].key == g[k].key && r.value[k].ref == g[k].ref && r.value[k].alt == g[k].alt
              && r.value[k].counts == Add(g[k].counts, c[k].counts)
  {
    if Compatible(g, c) then Ok(map k | k in g.Keys + c.Keys :: MergeAt(g, c, k))
    else Err(InvalidMerge)
  }

  /** Loop invariant of `MergeInto`: the chunk keys outside `todo` have been merged
      into `acc`, and every other key of `acc` still holds the global variant. */
  ghost predicate MergedExcept(g: VariantMap, c: VariantMap, todo: set<VariantKey>, acc: VariantMap)
  {
    && todo <= c.Keys
    && (forall k :: k in c && k !in todo && k in g ==> Mergeable(g[k], c[k]))
    && acc.Keys == g.Keys + (c.Keys - todo)
    && (forall k :: k in acc ==> acc[k] == if k in c && k !in todo then MergeAt(g, c, k) else g[k])
  }

  /** The loop of lines 81-85, visiting the chunk's keys in an arbitrary order:
      whatever that order, it computes `MergeResults`. */
  method MergeInto(g: VariantMap, c: VariantMap) returns (r: Result<VariantMap, Error>)
    ensures r == MergeResults(g, c)
  {
    var acc := g;
    var todo := c.Keys;
    while todo != {}
      invariant MergedExcept(g, c, todo, acc)
      decreases |todo|
    {
      var k :| k in todo;
      if k !in acc {
        MergeStepInsert(g, c, todo, acc, k);
        acc := acc[k := c[k]];
      } else {
        var merged := MergeVariant(acc[k], c[k]);
        if merged.Err? {
          MergeStepFails(g, c, todo, acc, k);
          return Err(merged.error);
        }
        MergeStepAdd(g, c, todo, acc, k);
        acc := acc[k := merged.value];
      }
      todo := todo - {k};
    }
    MergeDone(g, c, acc);
    return Ok(acc);
  }

  /** A chunk key absent from the accumulator is new to the global map: inserting it keeps the invariant. */
  lemma MergeStepInsert(g: VariantMap, c: VariantMap, todo: set<VariantKey>, acc: VariantMap, k: VariantKey)
    requires MergedExcept(g, c, todo, acc)
    requires k in todo && k !in acc
    ensures MergedExcept(g, c, todo - {k}, acc[k := c[k]])
  {
  }

  /** A chunk key already in the accumulator whose variants merge keeps the invariant. */
  lemma MergeStepAdd(g: VariantMap, c: VariantMap, todo: set<VariantKey>, acc: VariantMap, k: VariantKey)
    requires MergedExcept(g, c, todo, acc)
    requires k in todo && k in acc && MergeVariant(acc[k], c[k]).Ok?
    ensures MergedExcept(g, c, todo - {k}, acc[k := MergeVariant(acc[k], c[k]).value])
  {
    assert acc[k] == g[k];
  }

  /** A refused merge of an unvisited key means the maps are not compatible. */
  lemma MergeStepFails(g: VariantMap, c: VariantMap, todo: set<VariantKey>, acc: VariantMap, k: VariantKey)
    requires MergedExcept(g, c, todo, acc)
    requires k in todo && k in acc && MergeVariant(acc[k], c[k]).Err?
    ensures MergeResults(g, c) == Err(MergeVariant(acc[k], c[k]).error)
  {
    assert k in g && acc[k] == g[k];
  }

  /** Once every chunk key is visited, the accumulator is the merged map. */
  lemma MergeDone(g: VariantMap, c: VariantMap, acc: VariantMap)
    requires MergedExcept(g, c, {}, acc)
    ensures MergeResults(g, c) == Ok(acc)
  {
    assert Compatible(g, c);
    assert acc == map k | k in g.Keys + c.Keys :: MergeAt(g, c, k);
  }

  /** Merging an empty chunk changes nothing, so skipping empty results is harmless. */
  lemma MergeEmptyChunk(g: VariantMap)
    ensures MergeResults(g, map[]) == Ok(g)
  {
    assert MergeResults(g, map[]).value == g;
  }

  /** Chunks whose keys are new to the global map are simply added to it. */
  lemma MergeDisjoint(g: VariantMap, c: VariantMap)
    requires g.Keys !! c.Keys
    ensures MergeResults(g, c) == Ok(g + c)
  {
    assert MergeResults(g, c).value == g + c;
  }

  /** Merging is symmetric: either order fails, or both give the same map. */
  lemma MergeResultsCommute(a: VariantMap, b: VariantMap)
    ensures MergeResults(a, b) == MergeResults(b, a)
  {
    if Compatible(a, b) {
      assert Compatible(b, a);
      var ab := MergeResults(a, b).value;
      var ba := MergeResults(b, a).value;
      forall k | k in ab
        ensures ab[k] == ba[k]
      {
        if k in a && k in b {
          AddCommutative(a[k].counts, b[k].counts);
        }
      }
      assert ab == ba;
    }
  }

  lemma MergeResultsExamples()
    ensures var k := VariantKey("chr1", 10);
            var v := Variant(k, "A", "T", Counts(1, 0, 0, 0));
            MergeResults(map[], map[k := v]) == Ok(map[k := v])
    ensures var k := VariantKey("chr1", 10);
            var v1 := Variant(k, "A", "T", Counts(1, 0, 0, 2));
            var v2 := Variant(k, "A", "T", Counts(3, 0, 0, 1));
            MergeResults(map[k := v1], map[k := v2]) == Ok(map[k := Variant(k, "A", "T", Counts(4, 0, 0, 3))])
  {
    var k := VariantKey("chr1", 10);
    var v := Variant(k, "A", "T", Counts(1, 0, 0, 0));
    MergeDisjoint(map[], map[k := v]);
    assert map[] + map[k := v] == map[k := v];
    var v1 := Variant(k, "A", "T", Counts(1, 0, 0, 2));
    var v2 := Variant(k, "A", "T", Counts(3, 0, 0, 1));
    assert MergeResults(map[k := v1], map[k := v2]).value == map[k := Variant(k, "A", "T", Counts(4, 0, 0, 3))];
  }
}
