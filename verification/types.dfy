/** The data types of HARP: variant keys, allele counts and variants,
    with the two in-place additions of harp_types.py as pure functions. */
module HarpTypes {
  import opened Wrappers

  /** A variant's identity: chromosome name and 0-based position. */
  datatype VariantKey = VariantKey(chrom: string, pos: nat)

  /** Read support per haplotype and allele. */
  datatype Counts = Counts(h1Ref: nat, h1Alt: nat, h2Ref: nat, h2Alt: nat)

  /** A single-nucleotide variant with its reference and alternate allele and its counts. */
  datatype Variant = Variant(key: VariantKey, ref: string, alt: string, counts: Counts)

  /** The failures of the counting core.  `InvalidMerge` is the `ValueError`
      raised by `Variant.__iadd__`, for a key mismatch and an allele mismatch alike. */
  datatype Error = VcfParsingError | BamNotFound | InvalidMerge

  /** A partial or global result: one variant per key. */
  type VariantMap = map<VariantKey, Variant>

  /** A `Counts()` built with its default field values. */
  function ZeroCounts(): Counts
  {
    Counts(0, 0, 0, 0)
  }

  /** Number of observations recorded in `c`, over both haplotypes and alleles. */
  function Total(c: Counts): nat
  {
    c.h1Ref + c.h1Alt + c.h2Ref + c.h2Alt
  }

  /** `Counts.__iadd__`: component-wise sum. */
  function Add(a: Counts, b: Counts): (r: Counts)
    ensures CountsLe(a, r) && CountsLe(b, r)
  {
    Counts(a.h1Ref + b.h1Ref, a.h1Alt + b.h1Alt, a.h2Ref + b.h2Ref, a.h2Alt + b.h2Alt)
  }

  /** `a` is at most `b` in every field. */
  predicate CountsLe(a: Counts, b: Counts)
  {
    a.h1Ref <= b.h1Ref && a.h1Alt <= b.h1Alt && a.h2Ref <= b.h2Ref && a.h2Alt <= b.h2Alt
  }

  lemma AddExample()
    ensures Add(Counts(1, 2, 3, 4), Counts(10, 20, 30, 40)) == Counts(11, 22, 33, 44)
  {
  }

  lemma AddZeroIdentity(c: Counts)
    ensures Add(c, ZeroCounts()) == c && Add(ZeroCounts(), c) == c
  {
  }

  lemma AddCommutative(a: Counts, b: Counts)
    ensures Add(a, b) == Add(b, a)
  {
  }

  lemma AddAssociative(a: Counts, b: Counts, c: Counts)
    ensures Add(Add(a, b), c) == Add(a, Add(b, c))
  {
  }

  /** Adding never loses an observation: the sum dominates both operands
      and its total is the sum of the totals. */
  lemma AddMonotone(a: Counts, b: Counts)
    ensures CountsLe(a, Add(a, b)) && CountsLe(b, Add(a, b))
    ensures Total(Add(a, b)) == Total(a) + Total(b)
  {
  }

  /** Two variants may be merged only when key, reference and alternate allele agree. */
  predicate Mergeable(target: Variant, other: Variant)
  {
    target.key == other.key && target.ref == other.ref && target.alt == other.alt
  }

  /** `Variant.__iadd__`: the key check, then the allele check, then the count sum.
      On failure the target is left as it was (there is no new value). */
  function MergeVariant(target: Variant, other: Variant): (r: Result<Variant, Error>)
    ensures r.Err? <==> !Mergeable(target, other)
    ensures r.Err? ==> r.error == InvalidMerge
    ensures r.Ok? ==> r.value.key == target.key && r.value.ref == target.ref && r.value.alt == target.alt
    ensures r.Ok? ==> r.value.counts == Add(target.counts, other.counts)
  {
    if target.key != other.key then
      Err(InvalidMerge)
    else if target.ref != other.ref || target.alt != other.alt then
      Err(InvalidMerge)
    else
      Ok(target.(counts := Add(target.counts, other.counts)))
  }

  /** Merging is symmetric: both orders fail together or give the same variant. */
  lemma MergeVariantCommutes(a: Variant, b: Variant)
    ensures MergeVariant(a, b) == MergeVariant(b, a)
  {
  }

  /** Merging three variants gives the same outcome however it is bracketed. */
  lemma MergeVariantAssociates(a: Variant, b: Variant, c: Variant)
    ensures (MergeVariant(a, b).Ok? && MergeVariant(b, c).Ok?) ==>
              MergeVariant(MergeVariant(a, b).value, c) == MergeVariant(a, MergeVariant(b, c).value)
  {
  }

  lemma MergeVariantExamples()
    ensures var key := VariantKey("chr1", 100);
            MergeVariant(Variant(key, "A", "T", Counts(1, 1, 1, 1)), Variant(key, "A", "T", Counts(2, 2, 2, 2)))
              == Ok(Variant(key, "A", "T", Counts(3, 3, 3, 3)))
    ensures MergeVariant(Variant(VariantKey("chr1", 100), "A", "T", ZeroCounts()),
                         Variant(VariantKey("chr1", 101), "A", "T", ZeroCounts())) == Err(InvalidMerge)
    ensures MergeVariant(Variant(VariantKey("chr1", 100), "A", "T", ZeroCounts()),
                         Variant(VariantKey("chr1", 100), "G", "T", ZeroCounts())) == Err(InvalidMerge)
  {
  }
}
