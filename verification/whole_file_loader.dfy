/** `load_variants` of io.py, the older whole-file loader: every qualifying
    record of the file, grouped by chromosome and then by 0-based position. */
module WholeFileLoader {
  import opened Wrappers
  import opened HarpTypes
  import opened VariantSource
  import opened ChunkLoader

  /** chromosome -> 0-based position -> variant */
  type Grouped = map<string, map<nat, Variant>>

  /** Some record of `recs` is a qualifying SNV on `c` at 0-based position `p`. */
  predicate HasSnvAt(recs: seq<Record>, c: string, p: nat)
  {
    exists i :: 0 <= i < |recs| && SnvAt(recs[i], c, p)
  }

  /** The contents a whole-file load of `recs` must have. */
  ghost predicate GroupedAs(recs: seq<Record>, r: Grouped)
  {
    && (forall c :: c in r <==> exists i :: 0 <= i < |recs| && IsBiallelicSnv(recs[i]) && recs[i].chrom == c)
    && (forall c: string, p: nat :: c in r && p in r[c] <==> HasSnvAt(recs, c, p))
    && (forall c: string, p: nat :: c in r && p in r[c] ==>
          r[c][p].key == VariantKey(c, p) && r[c][p].counts == ZeroCounts()
          && |r[c][p].ref| == 1 && |r[c][p].alt| == 1)
  }

  /** One iteration of lines 37-57: `setdefault(chrom, {})[pos0] = variant`. */
  function GroupStep(acc: Grouped, rec: Record): Grouped
  {
    if IsBiallelicSnv(rec) then
      var pos0: nat := rec.pos - 1;
      var inner := if rec.chrom in acc then acc[rec.chrom] else map[];
      acc[rec.chrom := inner[pos0 := NewVariant(VariantKey(rec.chrom, pos0), rec)]]
    else
      acc
  }

  /** The loop of lines 37-57 over all records of the file. */
  function GroupRecords(recs: seq<Record>): (r: Grouped)
    ensures forall c :: c in r <==> exists i :: 0 <= i < |recs| && IsBiallelicSnv(recs[i]) && recs[i].chrom == c
    ensures forall c: string, p: nat :: c in r && p in r[c] <==> HasSnvAt(recs, c, p)
    ensures forall c: string, p: nat :: c in r && p in r[c] ==>
              r[c][p].key == VariantKey(c, p) && r[c][p].counts == ZeroCounts()
              && |r[c][p].ref| == 1 && |r[c][p].alt| == 1
  {
    if |recs| == 0 then map[]
    else
      var n := |recs| - 1;
      var acc := GroupRecords(recs[..n]);
      GroupStepKeeps(recs, acc);
      GroupStep(acc, recs[n])
  }

  /** A grouping of `recs[..|recs| - 1]` followed by one step is a grouping of `recs`. */
  lemma GroupStepKeeps(recs: seq<Record>, acc: Grouped)
    requires |recs| > 0
    requires GroupedAs(recs[..|recs| - 1], acc)
    ensures GroupedAs(recs, GroupStep(acc, recs[|recs| - 1]))
  {
    GroupStepChroms(recs, acc);
    GroupStepPositions(recs, acc);
    GroupStepContents(recs, acc);
  }

  /** The variants after one more grouping step are fresh, keyed by their own position. */
  lemma GroupStepContents(recs: seq<Record>, acc: Grouped)
    requires |recs| > 0
    requires GroupedAs(recs[..|recs| - 1], acc)
    ensures var r := GroupStep(acc, recs[|recs| - 1]);
            forall c: string, p: nat :: c in r && p in r[c] ==>
              r[c][p].key == VariantKey(c, p) && r[c][p].counts == ZeroCounts()
              && |r[c][p].ref| == 1 && |r[c][p].alt| == 1
  {
  }

  /** The chromosome keys after one more grouping step. */
  lemma GroupStepChroms(recs: seq<Record>, acc: Grouped)
    requires |recs| > 0
    requires GroupedAs(recs[..|recs| - 1], acc)
    ensures var r := GroupStep(acc, recs[|recs| - 1]);
            forall c :: c in r <==> exists i :: 0 <= i < |recs| && IsBiallelicSnv(recs[i]) && recs[i].chrom == c
  {
    var n := |recs| - 1;
    var pre := recs[..n];
    var rec := recs[n];
    var r := GroupStep(acc, rec);
    forall c
      ensures c in r <==> exists i :: 0 <= i < |recs| && IsBiallelicSnv(recs[i]) && recs[i].chrom == c
    {
      if c in r && !(IsBiallelicSnv(rec) && rec.chrom == c) {
        var i :| 0 <= i < |pre| && IsBiallelicSnv(pre[i]) && pre[i].chrom == c;
        assert recs[i] == pre[i];
      }
      if exists i :: 0 <= i < |recs| && IsBiallelicSnv(recs[i]) && recs[i].chrom == c {
        var i :| 0 <= i < |recs| && IsBiallelicSnv(recs[i]) && recs[i].chrom == c;
        if i < n {
          assert pre[i] == recs[i];
        }
      }
    }
  }

  /** The positions after one more grouping step. */
  lemma GroupStepPositions(recs: seq<Record>, acc: Grouped)
    requires |recs| > 0
    requires GroupedAs(recs[..|recs| - 1], acc)
    ensures var r := GroupStep(acc, recs[|recs| - 1]);
            forall c: string, p: nat :: c in r && p in r[c] <==> HasSnvAt(recs, c, p)
  {
    var n := |recs| - 1;
    var pre := recs[..n];
    var rec := recs[n];
    var r := GroupStep(acc, rec);
    forall c: string, p: nat
      ensures c in r && p in r[c] <==> HasSnvAt(recs, c, p)
    {
      if c in r && p in r[c] && !SnvAt(rec, c, p) {
        assert c in acc && p in acc[c];
        var i :| 0 <= i < |pre| && SnvAt(pre[i], c, p);
        assert recs[i] == pre[i];
      }
      if c in r && p in r[c] && SnvAt(rec, c, p) {
        assert SnvAt(recs[n], c, p);
      }
      if HasSnvAt(recs, c, p) {
        var i :| 0 <= i < |recs| && SnvAt(recs[i], c, p);
        if i < n {
          assert pre[i] == recs[i];
          assert SnvAt(pre[i], c, p);
        }
      }
    }
  }

  /** `load_variants`: `None` stands for a file the library cannot open. */
  function LoadVariants(vcf: Option<seq<Record>>): (r: Result<Grouped, Error>)
    ensures r.Err? <==> vcf.None?
    ensures r.Err? ==> r.error == VcfParsingError
    ensures r.Ok? ==> forall c :: c in r.value ==> |r.value[c]| > 0
  {
    match vcf
    case None => Err(VcfParsingError)
    case Some(recs) =>
      var g := GroupRecords(recs);
      assert forall c :: c in g ==> |g[c]| > 0 by {
        forall c | c in g
          ensures |g[c]| > 0
        {
          var i :| 0 <= i < |recs| && IsBiallelicSnv(recs[i]) && recs[i].chrom == c;
          assert SnvAt(recs[i], c, recs[i].pos - 1);
          assert recs[i].pos - 1 in g[c];
        }
      }
      Ok(g)
  }

  /** At position `p` of chromosome `c`, the grouping `w` and the interval map `m`
      hold the same variant, or neither holds one. */
  predicate AgreeAt(w: Grouped, m: VariantMap, c: string, p: nat)
  {
    && ((c in w && p in w[c]) <==> VariantKey(c, p) in m)
    && (c in w && p in w[c] ==> VariantKey(c, p) in m && w[c][p] == m[VariantKey(c, p)])
  }

  /** The two loaders agree: inside any interval of a chromosome, the whole-file
      grouping and the interval loader hold the same keys with the same variants
      (in particular the same record wins when a position repeats). */
  lemma {:induction false} LoadersAgree(recs: seq<Record>, c: string, start: nat, end: nat, p: nat)
    requires start <= p < end
    ensures AgreeAt(GroupRecords(recs), LoadRecords(Fetch(recs, c, start, end), c), c, p)
  {
    if |recs| > 0 {
      var n := |recs| - 1;
      var rec := recs[n];
      var f := Fetch(recs[..n], c, start, end);
      LoadersAgree(recs[..n], c, start, end, p);
      GroupRecordsSnoc(recs);
      FetchSnoc(recs, c, start, end);
      if Overlaps(rec, c, start, end) {
        LoadRecordsSnoc(f, rec, c);
      } else {
        assert f + [] == f;
      }
      AgreeStep(GroupRecords(recs[..n]), LoadRecords(f, c), rec, c, start, end, p);
    }
  }

  /** One record keeps the two loaders in agreement at a position of the interval. */
  lemma AgreeStep(w: Grouped, m: VariantMap, rec: Record, c: string, start: nat, end: nat, p: nat)
    requires start <= p < end
    requires AgreeAt(w, m, c, p)
    ensures AgreeAt(GroupStep(w, rec), if Overlaps(rec, c, start, end) then LoadStep(m, c, rec) else m, c, p)
  {
    GroupStepAt(w, rec, c, p);
    LoadStepAt(m, c, rec, VariantKey(c, p));
  }

  lemma GroupRecordsSnoc(recs: seq<Record>)
    requires |recs| > 0
    ensures GroupRecords(recs) == GroupStep(GroupRecords(recs[..|recs| - 1]), recs[|recs| - 1])
  {
  }

  /** What one grouping step does at position `p` of chromosome `c`. */
  lemma GroupStepAt(acc: Grouped, rec: Record, c: string, p: nat)
    ensures var r := GroupStep(acc, rec);
            if IsBiallelicSnv(rec) && rec.chrom == c && rec.pos - 1 == p then
              c in r && p in r[c] && r[c][p] == NewVariant(VariantKey(c, p), rec)
            else
              (c in r && p in r[c]) == (c in acc && p in acc[c])
              && (c in r && p in r[c] ==> r[c][p] == acc[c][p])
  {
  }

  /** What one interval-load step does at `key`. */
  lemma LoadStepAt(acc: VariantMap, c: string, rec: Record, key: VariantKey)
    ensures var r := LoadStep(acc, c, rec);
            if IsBiallelicSnv(rec) && KeyOf(c, rec) == key then
              key in r && r[key] == NewVariant(key, rec)
            else
              (key in r) == (key in acc) && (key in r ==> r[key] == acc[key])
  {
  }

  lemma LoadVariantsExamples()
    ensures var w := LoadVariants(Some([Record("chr1", 10, "A", ["T"]), Record("chr1", 20, "G", ["C"])]));
            w.Ok? && "chr1" in w.value && 9 in w.value["chr1"] && 19 in w.value["chr1"]
    ensures LoadVariants(None) == Err(VcfParsingError)
  {
  }
}
