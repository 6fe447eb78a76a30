# HARP counting core in Dafny

HARP counts, for every bi-allelic single-nucleotide variant (SNV) of a VCF
file, how many haplotype-tagged reads of a BAM file support the reference
allele and how many support the alternate allele, separately for haplotype 1
and haplotype 2 (the `HP` tag). The driver tiles every reference sequence of the
BAM file into windows of 200 000 bases. A worker processes each window: it loads the
window's SNVs and scans the reads overlapping it. The driver merges the
per-window maps into one global map, in whatever order the workers finish.
It then writes a tab-separated report sorted by chromosome and position.

This project models that core as pure functions over immutable values:

- `types.dfy` (module `HarpTypes`): `VariantKey`, `Counts`, `Variant`, the
  error values, `Counts.__iadd__` (`Add`) and `Variant.__iadd__`
  (`MergeVariant`).
- `variant_source.dfy` (module `VariantSource`): a VCF file as a sequence of
  records and its region query (`Fetch`).
- `chunk_loader.dfy` (module `ChunkLoader`): `load_variants_chunk`.
- `whole_file_loader.dfy` (module `WholeFileLoader`): the older
  whole-file loader `load_variants`, and a proof that the two loaders agree.
- `process.dfy` (module `Process`): `process_chunk`, with a BAM file as a
  sequence of reads, and `merge_results`. `merge_results` is modelled both as a
  map-valued function and as the loop itself (`MergeInto`).
- `planner.dfy` (module `Planner`): the window plan of `pipeline`.
- `pipeline.dfy` (module `Pipeline`): the driver. It runs every window,
  folds the results in an arbitrary completion order (skipping empty results,
  stopping at the first exception), and writes the report.
- `writer.dfy` (module `Writer`): `write_results`. This covers the header, the
  `(chrom, pos)` sort with Python's string order, decimal rendering, and a
  parser for reading a report back.
- `wrappers.dfy` (module `Wrappers`): `Option` and `Result`.

A failed file open is an input of `None` and an `Err` result. A raised
exception is an `Err` that ends the run. The report is the list of lines the
file receives, in order.

The main theorems:

- The merged result does not depend on the completion order.
- Its keys are exactly the SNVs that lie on a reference sequence of the BAM file.
- Every count equals the genome-wide count of the reads that observe the
  variant. No read is lost at a window border, and none is counted twice.
- Reading the report back yields every merged variant once, in ascending
  `(chrom, pos)` order, with its counts.

Positions in keys and in the report are 0-based, as in the code.

## Model

| member | source | states |
|---|---|---|
| HarpTypes.MergeVariant | src/harp/harp_types.py:66-85 | fails with the merge error exactly when key, reference or alternate allele differ; otherwise keeps key and alleles and sums the four counts |
| HarpTypes.MergeVariantCommutes | src/harp/harp_types.py:66-85 | merging a into b and b into a fail together or give the same variant |
| HarpTypes.MergeVariantAssociates | src/harp/harp_types.py:66-85 | three mergeable variants give the same result however the merges are bracketed |
| HarpTypes.Add | src/harp/harp_types.py:40-46 | the sum is at least each operand in every field |
| HarpTypes.AddMonotone | src/harp/harp_types.py:40-46 | adding counts never lowers a field, and the totals add up |
| ChunkLoader.LoadRecords | src/harp/harp_io.py:34-53 | the map holds a key exactly when some qualifying record sits at that 0-based position; each variant has zero counts and single-base alleles; the last qualifying record at a position wins |
| ChunkLoader.LoadVariantsChunk | src/harp/harp_io.py:14-53 | with the corrected SNV filter, fails with the VCF error exactly when the file cannot be opened; otherwise holds exactly the bi-allelic SNVs of the chromosome whose 0-based position lies in [start, end), each under its own key with zero counts and the REF and first ALT of the last such record of the file at that position |
| ChunkLoader.ChunkKeys | src/harp/harp_io.py:36-45 | a region fetch followed by the SNV filter keeps exactly the SNVs positioned inside the interval |
| ChunkLoader.ChunkLast | src/harp/harp_io.py:36-51 | the fetch keeps file order, so at each position of the interval the loaded variant is the one built from the last qualifying record of the whole file there |
| ChunkLoader.ScreenAsWritten | src/harp/harp_io.py:38-43 | the filter as written raises exactly on a record without an alternate allele; a record it keeps is a bi-allelic SNV |
| ChunkLoader.NoAltRaises | src/harp/harp_io.py:38-43 | a monomorphic record makes the filter as written raise |
| ChunkLoader.ScreenCorrected | src/harp/harp_io.py:38-43 | the filter the model uses agrees with the code wherever the code does not raise, and skips records without an alternate allele |
| WholeFileLoader.GroupRecords | src/harp/io.py:35-59 | the chromosomes and positions present are exactly those of the qualifying records; each variant is filed under its own 0-based key with zero counts |
| WholeFileLoader.LoadVariants | src/harp/io.py:11-59 | with the corrected SNV filter, fails with the VCF error exactly when the file cannot be opened; no chromosome maps to an empty inner dictionary |
| WholeFileLoader.LoadersAgree | src/harp/io.py:37-57 | inside any interval the whole-file grouping and the interval loader hold the same variants at the same positions |
| Process.ObservePair | src/harp/process.py:43-60 | one aligned pair changes at most the variant at its reference position: its key and alleles stay, no count decreases, and its total grows by one exactly when the base is one of its alleles; the key set and every other variant are unchanged |
| Process.ObservationIsUnit | src/harp/process.py:50-60 | a base equal to the reference adds one to the read's haplotype REF count, otherwise a base equal to the alternate adds one to its ALT count, otherwise nothing |
| Process.ScanPairs | src/harp/process.py:43-60 | the pair loop never adds or removes a key |
| Process.ScanPairsTally | src/harp/process.py:43-60 | after scanning a read's pairs, each variant holds its old counts plus exactly the observations made at its position, with key and alleles unchanged |
| Process.ScanRead | src/harp/process.py:34-60 | a secondary or supplementary read, a read without `HP` or with an `HP` other than 1 or 2 changes nothing; no read adds or removes a key |
| Process.ScanReads | src/harp/process.py:33-60 | the read loop never adds or removes a key |
| Process.ScanReadsTally | src/harp/process.py:33-60 | after the read loop, each variant holds its old counts plus exactly what the counted reads observed at its position; filtered reads contribute nothing |
| Process.FetchReads | src/harp/process.py:33 | the region query returns exactly the reads overlapping the window |
| Process.ProcessChunk | src/harp/process.py:29-62 | for reads that store their bases and the corrected SNV filter: VCF error when the VCF cannot be opened, an empty map when the window has no SNVs, BAM error only when there are SNVs and no BAM; otherwise exactly the window's SNVs as keys |
| Process.ProcessChunkCounts | src/harp/process.py:29-62 | every variant returned carries its loaded key and alleles, and its counts equal the genome-wide count of reads observing it |
| Process.MergeResults | src/harp/process.py:65-85 | fails exactly when a shared key carries variants that cannot be merged; otherwise the keys are the union, unshared variants are kept, shared ones have their counts summed |
| Process.MergeInto | src/harp/process.py:81-85 | the loop over the chunk's keys, in any order, computes the same outcome as the map-level merge |
| Process.MergeResultsCommute | src/harp/process.py:81-85 | merging a chunk into the global map gives the same outcome as the other way round |
| Process.MergeDisjoint | src/harp/process.py:81-83 | a chunk whose keys are new to the global map is simply added |
| Process.MergeEmptyChunk | src/harp/pipeline.py:55-57 | merging an empty chunk changes nothing, so skipping empty results is harmless |
| Planner.ChunksFrom | src/harp/pipeline.py:43-44 | the windows of one chromosome lie inside it, abut one another, start at 0 and end at its length, each no wider than the chunk size |
| Planner.ChunkStarts | src/harp/pipeline.py:43 | window i starts at i times the chunk size, as the range does |
| Planner.ChunksFullWidth | src/harp/pipeline.py:43-44 | every window but the last has exactly the chunk size |
| Planner.ChunksCover | src/harp/pipeline.py:41-44 | every position of a chromosome lies in some window |
| Planner.CoveredFrom | src/harp/pipeline.py:43-44 | abutting windows that end at the chromosome length cover every position from the start of any of them on |
| Planner.ChunksCoverAtMostOnce | src/harp/pipeline.py:43-44 | no position lies in two windows of one chromosome |
| Planner.PlanChunks | src/harp/pipeline.py:41-49 | every planned window is non-empty and lies inside one of the listed chromosomes |
| Planner.PlanCovers | src/harp/pipeline.py:41-49 | every position of every listed chromosome lies in some planned window |
| Planner.PlanApart | src/harp/pipeline.py:41-49 | with distinct chromosome names, no two planned windows share a position |
| Planner.PlanChunksExamples | src/harp/pipeline.py:12-49 | a 250 000-base chromosome gets two windows at the 200 000 chunk size; an empty one gets none |
| Pipeline.FoldMerge | src/harp/pipeline.py:52-57 | a merge loop that succeeds never drops a key of the global map it started from |
| Pipeline.FoldDisjoint | src/harp/pipeline.py:52-57 | for results with disjoint keys that fail with one error only, the merge loop yields that error if any result failed, and otherwise the union of the results |
| Pipeline.FoldOrderIndependent | src/harp/pipeline.py:52-57 | the merge loop's outcome does not depend on the order in which results arrive |
| Pipeline.UnionKeys | src/harp/pipeline.py:52-57 | the merged keys are exactly the keys some window reports |
| Pipeline.UnionAt | src/harp/pipeline.py:52-57 | with disjoint results, each merged variant is the one its window reported |
| Pipeline.RunChunks | src/harp/pipeline.py:45-49 | one outcome per planned window, failing exactly when the VCF cannot be opened; a window reports only keys inside itself |
| Pipeline.RunChunksDisjoint | src/harp/pipeline.py:41-49 | windows that share no position report no common key |
| Pipeline.RunChunksErrors | src/harp/pipeline.py:45-55 | every window fails with the VCF error or none does; some window fails exactly when the VCF cannot be opened and there is a window |
| Pipeline.MergedIsUnion | src/harp/pipeline.py:39-57 | with distinct reference names, merging the window results into an empty map in any completion order gives the VCF error when there was a window to fail, and otherwise the union of all window results |
| Pipeline.MergedResult | src/harp/pipeline.py:28-57 | the global map after the run is the VCF error when there was a window to fail, and otherwise the union of all window results, whatever the completion order |
| Pipeline.MergedOrderIndependent | src/harp/pipeline.py:52-57 | the merged map is the same for every completion order |
| Pipeline.MergedKeys | src/harp/pipeline.py:28-57 | a key is merged exactly when a bi-allelic SNV of the VCF sits there and the position lies on a BAM reference sequence |
| Pipeline.MergedCounts | src/harp/pipeline.py:28-57 | every merged variant carries the REF and first ALT of the last bi-allelic SNV record of the VCF at its key, and its counts equal the genome-wide count of reads observing those alleles |
| Pipeline.RunPipeline | src/harp/pipeline.py:17-63 | the BAM error when the BAM cannot be opened; otherwise the report starts with the header and has one line per merged variant |
| Pipeline.PipelineFails | src/harp/pipeline.py:31-57 | for well-formed reads and the corrected SNV filter, the run fails exactly when the BAM cannot be opened, or the VCF cannot be opened and there is a window; the error names the file that failed |
| Pipeline.PipelineOrderIndependent | src/harp/pipeline.py:52-63 | the report is the same for every completion order |
| Pipeline.PipelineReport | src/harp/pipeline.py:28-63 | the report reads back as one row per SNV on a reference sequence, each exactly once, ascending by (chrom, pos), with genome-wide counts taken against the alleles of the last such VCF record at that position |
| Writer.StrLtTotal | src/harp/writer.py:18-20 | Python string order is total and asymmetric |
| Writer.StrLtTransitive | src/harp/writer.py:18-20 | Python string order is transitive |
| Writer.KeyLtOrder | src/harp/writer.py:18-20 | the (chrom, pos) tuple order is a strict total order on keys |
| Writer.SortedKeys | src/harp/writer.py:18-20 | lists each key of the map exactly once, in strictly ascending (chrom, pos) order |
| Writer.SortedKeysUnique | src/harp/writer.py:18-20 | any ascending listing of exactly those keys is that listing, so the sort is determined by the keys alone |
| Writer.DecimalRoundTrip | src/harp/writer.py:23-27 | reading a rendered integer back gives the integer |
| Writer.SplitJoin | src/harp/writer.py:23-27 | splitting tab-joined fields that contain no tab gives the fields back |
| Writer.Row | src/harp/writer.py:23-27 | every row is non-empty and ends in a newline |
| Writer.RowRoundTrip | src/harp/writer.py:23-27 | a row reads back as its chromosome, position and four counts when the chromosome name has no tab |
| Writer.WriteResults | src/harp/writer.py:16-27 | the header line first, then one newline-terminated line per variant |
| Writer.WriteReadBack | src/harp/writer.py:16-27 | the rows read back as every variant of the map exactly once, ascending by (chrom, pos), each with its four counts |
| Writer.WriteEmpty | src/harp/writer.py:16-17 | an empty map gives the header alone |
| Writer.WriteExamples | src/harp/writer.py:16-27 | a one-variant map gives the header and the row `chr1 9 3 1 0 12`, tab-separated |

## Left out

- File I/O through the alignment and variant-file libraries is not modelled. A VCF file is
  the sequence of its records, and a BAM file is its header's reference list plus its reads.
  A file that cannot be opened is `None`.
- Process.FetchReads: the model assumes a region fetch returns the reads whose reference
  span overlaps the window, in file order. The library's index lookup is not modelled.
- VariantSource.Fetch: the model assumes a VCF fetch returns the records whose reference
  span overlaps the window. Only single-base records survive the filter, so only the
  window's own positions matter.
- The process pool, `as_completed`, `tqdm` and logging are left out. Completion order is a
  permutation parameter `order`. A worker's exception reaches the driver in
  `fut.result()` and ends the run, which the fold models as the first `Err`.
- The CLI (`harp.py`), the logging helpers and the exception classes are left out. The
  exception classes become the values of `HarpTypes.Error`.
- HarpTypes.MergeVariant: the key mismatch and the allele mismatch raise the same
  `ValueError` class with different messages. Both are the single value `InvalidMerge`.
- Process.ProcessChunk: the code raises `FileNotFoundError` for a missing BAM file. The
  model follows the code and calls it `BamNotFound`; no BAM-processing exception is
  raised anywhere in the core.
- ChunkLoader.LoadVariantsChunk: models the corrected SNV filter, so a record with ALT `.`
  inside the window is skipped. The code raises `TypeError` there (see "## Findings"). The
  contract's "fails exactly when the file cannot be opened" holds for the corrected filter
  only. The region fetch of src/harp/harp_io.py:36 also needs a VCF index. The model has no
  index, so the fetch never fails.
- WholeFileLoader.LoadVariants: models the corrected SNV filter too, so the `TypeError`
  that src/harp/io.py:40 raises for a record with ALT `.` is not modelled.
- Process.ProcessChunk: every read is assumed to store its bases. A counted read stored
  with SEQ `*` has no `query_sequence`, yet its CIGAR still yields aligned pairs. If one
  of those pairs lands on a variant, src/harp/process.py:50 raises `TypeError` and the run
  ends. The model excludes such reads through `AllWellFormed`, which asks every pair of
  every read to index a stored base. A read the code never looks into (secondary,
  supplementary, without a usable `HP`, or whose pairs miss every variant) can be given
  placeholder bases without changing any count, because those bases are never read. So
  only the `TypeError` of src/harp/process.py:50 is lost. It also models the
  corrected SNV filter. The region fetch of src/harp/harp_io.py:67 needs a BAM index, which
  the CLI asks for (src/harp/harp.py:20). The model has no index, so the fetch never fails.
- Pipeline.PipelineFails: "fails exactly when" covers only the file-open failures. It
  leaves out the `TypeError` for a record with ALT `.` (corrected filter) and the one for a
  counted read with no stored sequence (excluded by `AllWellFormed`). A missing index is
  not modelled either.
- Pipeline.RunPipeline: the code opens the BAM header first. A header that cannot be read
  surfaces as an error from the alignment library, which the model also reports as
  `BamNotFound`.
- Python's in-place mutation and the object aliasing it implies are replaced by value
  semantics. Each worker returns a pickled copy, so no aliasing crosses a window.
- `get_aligned_pairs(matches_only=True)` never yields a `None` reference index, so aligned
  pairs carry natural numbers and the `None` test of line 44 is vacuous.
- A record whose reference and alternate allele are equal is not rejected by the code.
  The model keeps it too.
- Pipeline.MergedResult and Pipeline.RunPipeline require distinct reference names in the
  BAM header, and so do the order and union theorems built on them. The code reads the
  lengths into a dict (src/harp/pipeline.py:32-35), which plans each name once, and the
  SAM format forbids repeated names. A header with a repeated name is outside the model.
- Pipeline.PipelineReport: requires reference names without tabs. A name containing a tab
  makes a report row that cannot be split back into six fields. The code writes it
  regardless.
- Writer.WriteResults: the report is modelled as the list of lines written. The file's
  text is their concatenation. File creation and encoding are not modelled.
- tests/harp/tesy_process.py is misnamed, so pytest does not collect it. It has no
  authority over the model.

## Findings

| source | as written | input that shows it | evidently intended | confidence | as-written member | corrected member |
|---|---|---|---|---|---|---|
| src/harp/harp_io.py:38-43 | the SNV filter first takes `len(record.alts)`, and the variant-file library gives `alts = None` for a record whose ALT is `.` | a VCF record `chr1 5 . A .` inside a window | skip the record, as the comment "Only simple bi-allelic SNVs" says; the same test at src/harp/io.py:39-44 has the same defect | medium, not executed | ChunkLoader.NoAltRaises | ChunkLoader.ScreenCorrected |
