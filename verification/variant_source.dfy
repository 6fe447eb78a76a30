/** The variant-call input as the counting core sees it: a sequence of records,
    and the region query the variant-file library answers. */
module VariantSource {

  /** VCF positions are 1-based. */
  type VcfPos = p: int | p >= 1 witness 1

  /** One variant-call record: chromosome, 1-based position, reference allele, alternate alleles. */
  datatype Record = Record(chrom: string, pos: VcfPos, ref: string, alts: seq<string>)

  /** The record's reference span [pos - 1, pos - 1 + |ref|) overlaps the half-open
      interval [start, end) of `chrom`: the records a region fetch returns. */
  predicate Overlaps(rec: Record, chrom: string, start: nat, end: nat)
  {
    rec.chrom == chrom && rec.pos - 1 < end && start < rec.pos - 1 + |rec.ref|
  }

  /** Region query: the records of the file that overlap [start, end) of `chrom`,
      in file order. */
  function Fetch(recs: seq<Record>, chrom: string, start: nat, end: nat): (r: seq<Record>)
    ensures |r| <= |recs|
    ensures forall x :: x in r <==> x in recs && Overlaps(x, chrom, start, end)
  {
    if |recs| == 0 then []
    else
      var last := recs[|recs| - 1];
      assert recs == recs[..|recs| - 1] + [last];
      Fetch(recs[..|recs| - 1], chrom, start, end) + (if Overlaps(last, chrom, start, end) then [last] else [])
  }

  /** A fetch over one more record is the old fetch, extended when that record overlaps. */
  lemma FetchSnoc(recs: seq<Record>, c: string, start: nat, end: nat)
    requires |recs| > 0
    ensures var rec := recs[|recs| - 1];
            Fetch(recs, c, start, end)
              == Fetch(recs[..|recs| - 1], c, start, end) + (if Overlaps(rec, c, start, end) then [rec] else [])
  {
  }
}
