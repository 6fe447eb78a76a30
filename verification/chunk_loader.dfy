/** `load_variants_chunk` of harp_io.py: the variants of one interval,
    keeping only bi-allelic single-nucleotide variants. */
module ChunkLoader {
  import opened Wrappers
  import opened HarpTypes
  import opened VariantSource

  /** Exactly one alternate allele, and reference and alternate of length one. */
  predicate IsBiallelicSnv(rec: Record)
  {
    |rec.alts| == 1 && |rec.ref| == 1 && |rec.alts[0]| == 1
  }

  /** What the record filter of lines 38-43 does with a record, as written. */
  datatype Screening = Kept | Skipped | Raises

  /** The filter as written.  The variant-file library reports a record without an
      alternate allele (ALT `.`) with `alts` set to `None`, modelled here as an empty
      `alts`; the first test, `len(record.alts)`, then raises a `TypeError` instead
      of skipping the record. */
  function ScreenAsWritten(rec: Record): (s: Screening)
    ensures s == Raises <==> |rec.alts| == 0
    ensures s == Kept ==> |rec.alts| == 1 && |rec.ref| == 1 && |rec.alts[0]| == 1
  {
    if |rec.alts| == 0 then Raises
    else if |rec.alts| != 1 || |rec.ref| != 1 || |rec.alts[0]| != 1 then Skipped
    else Kept
  }

  /** A monomorphic record stops the whole load. */
  lemma NoAltRaises()
    ensures ScreenAsWritten(Record("chr1", 5, "A", [])) == Raises
    ensures ScreenAsWritten(Record("chr1", 5, "A", ["T"])) == Kept
  {
  }

  /** The filter the model uses agrees with the code on every record the code does
      not crash on, and skips a record without an alternate allele. */
  lemma ScreenCorrected(rec: Record)
    ensures ScreenAsWritten(rec) != Raises ==> (IsBiallelicSnv(rec) <==> ScreenAsWritten(rec) == Kept)
    ensures |rec.alts| == 0 ==> !IsBiallelicSnv(rec)
  {
  }

  /** The 0-based key of a record on `chrom`. */
  function KeyOf(chrom: string, rec: Record): VariantKey
  {
    VariantKey(chrom, rec.pos - 1)
  }

  /** The variant a qualifying record loads as: its alleles and zero counts. */
  function NewVariant(key: VariantKey, rec: Record): Variant
    requires |rec.alts| >= 1
  {
    Variant(key, rec.ref, rec.alts[0], ZeroCounts())
  }

  /** Record `i` of `recs` is a qualifying SNV whose key on `chrom` is `k`. */
  predicate LoadedFrom(recs: seq<Record>, chrom: string, i: int, k: VariantKey)
  {
    0 <= i < |recs| && IsBiallelicSnv(recs[i]) && KeyOf(chrom, recs[i]) == k
  }

  /** No qualifying record after record `i` has the same position. */
  predicate LastAt(recs: seq<Record>, i: int)
    requires 0 <= i < |recs|
  {
    forall j :: i < j < |recs| && IsBiallelicSnv(recs[j]) ==> recs[j].pos != recs[i].pos
  }

  /** The key set and contents a load of `recs` on `chrom` must have. */
  ghost predicate LoadedAs(recs: seq<Record>, chrom: string, r: VariantMap)
  {
    && (forall k :: k in r <==> exists i :: LoadedFrom(recs, chrom, i, k))
    && (forall k :: k in r ==>
          k.chrom == chrom && r[k].key == k && r[k].counts == ZeroCounts()
          && |r[k].ref| == 1 && |r[k].alt| == 1)
    && (forall i :: 0 <= i < |recs| && IsBiallelicSnv(recs[i]) && LastAt(recs, i) ==>
          KeyOf(chrom, recs[i]) in r && r[KeyOf(chrom, recs[i])] == NewVariant(KeyOf(chrom, recs[i]), recs[i]))
  }

  /** One iteration of the loop: a qualifying record (over)writes its key. */
  function LoadStep(acc: VariantMap, chrom: string, rec: Record): VariantMap
  {
    if IsBiallelicSnv(rec) then
      var key := KeyOf(chrom, rec);
      acc[key := NewVariant(key, rec)]
    else
      acc
  }

  /** The loop of lines 36-51 over already-fetched records: every qualifying
      record inserts a fresh variant at its key, a later one overwriting an earlier one. */
  function LoadRecords(recs: seq<Record>, chrom: string): (r: VariantMap)
    ensures forall k :: k in r <==> exists i :: LoadedFrom(recs, chrom, i, k)
    ensures forall k :: k in r ==>
              k.chrom == chrom && r[k].key == k && r[k].counts == ZeroCounts()
              && |r[k].ref| == 1 && |r[k].alt| == 1
    ensures forall i :: 0 <= i < |recs| && IsBiallelicSnv(recs[i]) && LastAt(recs, i) ==>
              KeyOf(chrom, recs[i]) in r && r[KeyOf(chrom, recs[i])] == NewVariant(KeyOf(chrom, recs[i]), recs[i])
  {
    if |recs| == 0 then map[]
    else
      var n := |recs| - 1;
      var acc := LoadRecords(recs[..n], chrom);
      LoadStepKeeps(recs, chrom, acc);
      LoadStep(acc, chrom, recs[n])
  }

  /** A load of `recs[..|recs| - 1]` followed by one step is a load of `recs`. */
  lemma LoadStepKeeps(recs: seq<Record>, chrom: string, acc: VariantMap)
    requires |recs| > 0
    requires LoadedAs(recs[..|recs| - 1], chrom, acc)
    ensures LoadedAs(recs, chrom, LoadStep(acc, chrom, recs[|recs| - 1]))
  {
    var n := |recs| - 1;
    var pre := recs[..n];
    var rec := recs[n];
    var r := LoadStep(acc, chrom, rec);
    forall k
      ensures k in r <==> exists i :: LoadedFrom(recs, chrom, i, k)
    {
      if k in r {
        if IsBiallelicSnv(rec) && k == KeyOf(chrom, rec) {
          assert LoadedFrom(recs, chrom, n, k);
        } else {
          var i :| LoadedFrom(pre, chrom, i, k);
          assert LoadedFrom(recs, chrom, i, k);
        }
      }
      if exists i :: LoadedFrom(recs, chrom, i, k) {
        var i :| LoadedFrom(recs, chrom, i, k);
        if i < n {
          assert LoadedFrom(pre, chrom, i, k);
        }
      }
    }
    forall i | 0 <= i < |recs| && IsBiallelicSnv(recs[i]) && LastAt(recs, i)
      ensures KeyOf(chrom, recs[i]) in r && r[KeyOf(chrom, recs[i])] == NewVariant(KeyOf(chrom, recs[i]), recs[i])
    {
      if i < n {
        assert pre[i] == recs[i];
        assert LastAt(pre, i);
        if IsBiallelicSnv(rec) {
          assert rec.pos != recs[i].pos;
        }
      }
    }
  }

  /** `rec` is a qualifying SNV on `chrom` at 0-based position `pos`. */
  predicate SnvAt(rec: Record, chrom: string, pos: nat)
  {
    rec.chrom == chrom && IsBiallelicSnv(rec) && rec.pos - 1 == pos
  }

  /** Record `i` is a qualifying SNV at 0-based position `pos` of `chrom`, and no later
      record of the file is one: the record whose variant a load keeps there. */
  predicate LastSnvAt(recs: seq<Record>, i: int, chrom: string, pos: nat)
  {
    && 0 <= i < |recs|
    && SnvAt(recs[i], chrom, pos)
    && forall j :: i < j < |recs| ==> !SnvAt(recs[j], chrom, pos)
  }

  /** Wherever the file has a qualifying SNV, it has a last one. */
  lemma {:induction false} LastSnvExists(recs: seq<Record>, chrom: string, pos: nat)
    requires exists i :: 0 <= i < |recs| && SnvAt(recs[i], chrom, pos)
    ensures exists i :: LastSnvAt(recs, i, chrom, pos)
    decreases |recs|
  {
    var n := |recs| - 1;
    if SnvAt(recs[n], chrom, pos) {
      assert LastSnvAt(recs, n, chrom, pos);
    } else {
      var pre := recs[..n];
      var i :| 0 <= i < |recs| && SnvAt(recs[i], chrom, pos);
      assert pre[i] == recs[i];
      LastSnvExists(pre, chrom, pos);
      var i' :| LastSnvAt(pre, i', chrom, pos);
      assert LastSnvAt(recs, i', chrom, pos);
    }
  }

  /** `load_variants_chunk`: `None` stands for a file the library cannot open. */
  function LoadVariantsChunk(vcf: Option<seq<Record>>, chrom: string, start: nat, end: nat)
    : (r: Result<VariantMap, Error>)
    ensures r.Err? <==> vcf.None?
    ensures r.Err? ==> r.error == VcfParsingError
    ensures r.Ok? ==> forall k :: k in r.value <==>
              k.chrom == chrom && start <= k.pos < end
              && exists i :: 0 <= i < |vcf.value| && SnvAt(vcf.value[i], chrom, k.pos)
    ensures r.Ok? ==> forall k :: k in r.value ==>
              r.value[k].key == k && r.value[k].counts == ZeroCounts()
              && |r.value[k].ref| == 1 && |r.value[k].alt| == 1
    ensures r.Ok? ==> forall k, i :: k in r.value && LastSnvAt(vcf.value, i, k.chrom, k.pos) ==>
              r.value[k] == NewVariant(k, vcf.value[i])
  {
    match vcf
    case None => Err(VcfParsingError)
    case Some(recs) =>
      var m := LoadRecords(Fetch(recs, chrom, start, end), chrom);
      ChunkKeys(recs, chrom, start, end);
      ChunkLastAll(recs, chrom, start, end);
      Ok(m)
  }

  /** A load of `f` extended by one record is one more loop step. */
  lemma LoadRecordsSnoc(f: seq<Record>, rec: Record, c: string)
    ensures LoadRecords(f + [rec], c) == LoadStep(LoadRecords(f, c), c, rec)
  {
    assert (f + [rec])[..|f|] == f;
  }

  /** The chunk loader keeps, at each position of the interval, the variant of the
      last qualifying record of the whole file there: the fetch keeps file order. */
  lemma {:induction false} ChunkLast(recs: seq<Record>, chrom: string, start: nat, end: nat, i: int, k: VariantKey)
    requires k.chrom == chrom && start <= k.pos < end
    requires LastSnvAt(recs, i, chrom, k.pos)
    ensures var m := LoadRecords(Fetch(recs, chrom, start, end), chrom);
            k in m && m[k] == NewVariant(k, recs[i])
    decreases |recs|
  {
    var n := |recs| - 1;
    var pre := recs[..n];
    var f := Fetch(pre, chrom, start, end);
    FetchSnoc(recs, chrom, start, end);
    if i == n {
      LoadLastHere(f, recs[n], chrom, start, end, k);
    } else {
      assert pre[i] == recs[i];
      assert LastSnvAt(pre, i, chrom, k.pos);
      ChunkLast(pre, chrom, start, end, i, k);
      LoadLastKept(f, recs[n], chrom, start, end, k, NewVariant(k, recs[i]));
    }
  }

  /** A qualifying record inside the interval, fetched last, sets its own key. */
  lemma LoadLastHere(f: seq<Record>, rec: Record, chrom: string, start: nat, end: nat, k: VariantKey)
    requires k.chrom == chrom && start <= k.pos < end && SnvAt(rec, chrom, k.pos)
    ensures var m := LoadRecords(f + (if Overlaps(rec, chrom, start, end) then [rec] else []), chrom);
            k in m && m[k] == NewVariant(k, rec)
  {
    assert Overlaps(rec, chrom, start, end);
    LoadRecordsSnoc(f, rec, chrom);
  }

  /** A record that is not a qualifying SNV at `k` leaves the variant at `k` alone. */
  lemma LoadLastKept(f: seq<Record>, rec: Record, chrom: string, start: nat, end: nat, k: VariantKey, v: Variant)
    requires k.chrom == chrom && k in LoadRecords(f, chrom) && LoadRecords(f, chrom)[k] == v
    requires !SnvAt(rec, chrom, k.pos)
    ensures var m := LoadRecords(f + (if Overlaps(rec, chrom, start, end) then [rec] else []), chrom);
            k in m && m[k] == v
  {
    var g := f + (if Overlaps(rec, chrom, start, end) then [rec] else []);
    if Overlaps(rec, chrom, start, end) {
      assert g == f + [rec];
      LoadRecordsSnoc(f, rec, chrom);
      LoadStepElsewhere(LoadRecords(f, chrom), chrom, rec, k);
    } else {
      assert g == f;
    }
  }

  /** A loop step on a record of `chrom` that is not a qualifying SNV at `k` keeps `k`'s entry. */
  lemma LoadStepElsewhere(acc: VariantMap, chrom: string, rec: Record, k: VariantKey)
    requires k in acc && k.chrom == chrom && rec.chrom == chrom && !SnvAt(rec, chrom, k.pos)
    ensures k in LoadStep(acc, chrom, rec) && LoadStep(acc, chrom, rec)[k] == acc[k]
  {
  }

  /** `ChunkLast` for every key of the interval at once. */
  lemma ChunkLastAll(recs: seq<Record>, chrom: string, start: nat, end: nat)
    ensures var m := LoadRecords(Fetch(recs, chrom, start, end), chrom);
            forall k, i :: k in m && LastSnvAt(recs, i, k.chrom, k.pos) ==> m[k] == NewVariant(k, recs[i])
  {
    var m := LoadRecords(Fetch(recs, chrom, start, end), chrom);
    forall k, i | k in m && LastSnvAt(recs, i, k.chrom, k.pos)
      ensures m[k] == NewVariant(k, recs[i])
    {
      ChunkKeys(recs, chrom, start, end);
      ChunkLast(recs, chrom, start, end, i, k);
    }
  }

  /** The keys the chunk loader produces are the positions of the qualifying
      SNVs of `chrom` that lie in [start, end). */
  lemma {:induction false} ChunkKeys(recs: seq<Record>, chrom: string, start: nat, end: nat)
    ensures var m := LoadRecords(Fetch(recs, chrom, start, end), chrom);
            forall k :: k in m <==>
              k.chrom == chrom && start <= k.pos < end
              && exists i :: 0 <= i < |recs| && SnvAt(recs[i], chrom, k.pos)
  {
    var fetched := Fetch(recs, chrom, start, end);
    var m := LoadRecords(fetched, chrom);
    forall k: VariantKey
      ensures k in m <==>
              k.chrom == chrom && start <= k.pos < end
              && exists i :: 0 <= i < |recs| && SnvAt(recs[i], chrom, k.pos)
    {
      if k in m {
        var i :| LoadedFrom(fetched, chrom, i, k);
        assert fetched[i] in fetched;
        var j :| 0 <= j < |recs| && recs[j] == fetched[i];
        assert SnvAt(recs[j], chrom, k.pos);
      }
      if k.chrom == chrom && start <= k.pos < end && exists i :: 0 <= i < |recs| && SnvAt(recs[i], chrom, k.pos) {
        var i :| 0 <= i < |recs| && SnvAt(recs[i], chrom, k.pos);
        assert recs[i] in recs;
        assert Overlaps(recs[i], chrom, start, end);
        var j :| 0 <= j < |fetched| && fetched[j] == recs[i];
        assert LoadedFrom(fetched, chrom, j, k);
      }
    }
  }

  lemma LoadChunkExamples()
    ensures LoadVariantsChunk(Some([Record("chr1", 5, "A", ["T"])]), "chr1", 0, 10)
              == Ok(map[VariantKey("chr1", 4) := Variant(VariantKey("chr1", 4), "A", "T", ZeroCounts())])
    ensures LoadVariantsChunk(Some([Record("chr1", 5, "AT", ["T"])]), "chr1", 0, 10) == Ok(map[])
    ensures LoadVariantsChunk(None, "chr1", 0, 10) == Err(VcfParsingError)
  {
    var snv := [Record("chr1", 5, "A", ["T"])];
    var indel := [Record("chr1", 5, "AT", ["T"])];
    assert snv[..0] == [] && indel[..0] == [];
    assert Fetch(snv, "chr1", 0, 10) == snv;
    assert Fetch(indel, "chr1", 0, 10) == indel;
  }
}
