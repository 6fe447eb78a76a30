/** writer.py: the tab-separated report of the merged counts, one row per
    variant in (chromosome, position) order after a fixed header line. */
module Writer {
  import opened Wrappers
  import opened HarpTypes

  /** The header line written first. */
  const Header: string := "chrom\tpos\th1_REF\th1_ALT\th2_REF\th2_ALT\n"

  // ---------------------------------------------------------------------------
  // The order `sorted` uses for the keys: Python's string and tuple comparison.
  // ---------------------------------------------------------------------------

  /** Python's `a < b` on strings: lexicographic by code point, a proper prefix first. */
  predicate StrLt(a: string, b: string)
  {
    if |a| == 0 then |b| > 0
    else if |b| == 0 then false
    else if a[0] != b[0] then a[0] < b[0]
    else StrLt(a[1..], b[1..])
  }

  lemma {:induction false} StrLtIrreflexive(a: string)
    ensures !StrLt(a, a)
  {
    if |a| > 0 {
      StrLtIrreflexive(a[1..]);
    }
  }

  lemma {:induction false} StrLtTransitive(a: string, b: string, c: string)
    requires StrLt(a, b) && StrLt(b, c)
    ensures StrLt(a, c)
  {
    if |a| > 0 && |b| > 0 && |c| > 0 && a[0] == b[0] && b[0] == c[0] {
      StrLtTransitive(a[1..], b[1..], c[1..]);
    }
  }

  /** Two different strings are ordered one way or the other, and never both ways. */
  lemma {:induction false} StrLtTotal(a: string, b: string)
    ensures a != b <==> StrLt(a, b) || StrLt(b, a)
    ensures !(StrLt(a, b) && StrLt(b, a))
  {
    if |a| > 0 && |b| > 0 && a[0] == b[0] {
      StrLtTotal(a[1..], b[1..]);
      if a[1..] == b[1..] {
        assert a == [a[0]] + a[1..] && b == [b[0]] + b[1..];
      }
    } else if a == b {
      StrLtIrreflexive(a);
    }
  }

  /** The sort key `(k.chrom, k.pos)` compared as a Python tuple. */
  predicate KeyLt(a: VariantKey, b: VariantKey)
  {
    StrLt(a.chrom, b.chrom) || (a.chrom == b.chrom && a.pos < b.pos)
  }

  /** `KeyLt` is a strict total order on keys. */
  lemma KeyLtOrder(a: VariantKey, b: VariantKey, c: VariantKey)
    ensures !KeyLt(a, a)
    ensures a != b <==> KeyLt(a, b) || KeyLt(b, a)
    ensures !(KeyLt(a, b) && KeyLt(b, a))
    ensures KeyLt(a, b) && KeyLt(b, c) ==> KeyLt(a, c)
  {
    StrLtIrreflexive(a.chrom);
    StrLtTotal(a.chrom, b.chrom);
    if StrLt(a.chrom, b.chrom) && StrLt(b.chrom, c.chrom) {
      StrLtTransitive(a.chrom, b.chrom, c.chrom);
    }
  }

  // ---------------------------------------------------------------------------
  // sorted(global_variants.keys(), key=lambda k: (k.chrom, k.pos))
  // ---------------------------------------------------------------------------

  /** `m` is the least key of `s`. */
  predicate IsLeast(m: VariantKey, s: set<VariantKey>)
  {
    m in s && forall k :: k in s && k != m ==> KeyLt(m, k)
  }

  /** Every non-empty set of keys has a least key. */
  lemma LeastExists(s: set<VariantKey>)
    requires s != {}
    ensures exists m :: IsLeast(m, s)
  {
    var m := LeastOf(s);
  }

  /** The least key of a non-empty set, found by removing keys one at a time. */
  lemma {:induction false} LeastOf(s: set<VariantKey>) returns (m: VariantKey)
    requires s != {}
    ensures IsLeast(m, s)
    decreases |s|
  {
    var x :| x in s;
    if s == {x} {
      m := x;
    } else {
      var rest := LeastOf(s - {x});
      KeyLtOrder(x, rest, rest);
      if KeyLt(x, rest) {
        forall k | k in s && k != x
          ensures KeyLt(x, k)
        {
          KeyLtOrder(x, rest, k);
        }
        m := x;
      } else {
        m := rest;
      }
    }
  }

  /** The least key of a set is unique. */
  lemma LeastUnique(a: VariantKey, b: VariantKey, s: set<VariantKey>)
    requires IsLeast(a, s) && IsLeast(b, s)
    ensures a == b
  {
    KeyLtOrder(a, b, b);
  }

  function Least(s: set<VariantKey>): (m: VariantKey)
    requires s != {}
    ensures IsLeast(m, s)
  {
    LeastExists(s);
    assert forall a, b :: IsLeast(a, s) && IsLeast(b, s) ==> a == b by {
      forall a, b | IsLeast(a, s) && IsLeast(b, s)
        ensures a == b
      {
        LeastUnique(a, b, s);
      }
    }
    var m :| IsLeast(m, s);
    m
  }

  /** Strictly increasing in the sort order (so also free of repeats). */
  predicate Increasing(q: seq<VariantKey>)
  {
    forall i, j :: 0 <= i < j < |q| ==> KeyLt(q[i], q[j])
  }

  /** The keys of `s` in the order `sorted` returns them: each key once, ascending. */
  function SortedKeys(s: set<VariantKey>): (r: seq<VariantKey>)
    ensures |r| == |s|
    ensures forall k :: k in r <==> k in s
    ensures Increasing(r)
    decreases |s|
  {
    if s == {} then []
    else
      var m := Least(s);
      var rest := SortedKeys(s - {m});
      [m] + rest
  }

  /** `sorted` is determined by the set alone: any ascending listing of exactly
      the keys of `s` is `SortedKeys(s)`. */
  lemma {:induction false} SortedKeysUnique(s: set<VariantKey>, q: seq<VariantKey>)
    requires Increasing(q)
    requires forall k :: k in q <==> k in s
    ensures q == SortedKeys(s)
    decreases |q|
  {
    if |q| == 0 {
      assert s == {};
    } else {
      HeadIsLeast(s, q);
      LeastUnique(Least(s), q[0], s);
      TailListsRest(s, q);
      SortedKeysUnique(s - {q[0]}, q[1..]);
    }
  }

  /** The first key of an ascending listing of `s` is its least key. */
  lemma HeadIsLeast(s: set<VariantKey>, q: seq<VariantKey>)
    requires Increasing(q) && |q| > 0
    requires forall k :: k in q <==> k in s
    ensures s != {} && IsLeast(q[0], s)
  {
    assert q[0] in s;
    forall k | k in s && k != q[0]
      ensures KeyLt(q[0], k)
    {
      var j :| 0 <= j < |q| && q[j] == k;
    }
  }

  /** The rest of an ascending listing of `s` is an ascending listing of the rest of `s`. */
  lemma TailListsRest(s: set<VariantKey>, q: seq<VariantKey>)
    requires Increasing(q) && |q| > 0
    requires forall k :: k in q <==> k in s
    ensures Increasing(q[1..])
    ensures forall k :: k in q[1..] <==> k in s - {q[0]}
  {
    var tail := q[1..];
    forall k
      ensures k in tail <==> k in s - {q[0]}
    {
      if k in tail {
        var j :| 0 <= j < |tail| && tail[j] == k;
        assert q[j + 1] == k;
        KeyLtOrder(q[0], k, k);
      }
      if k in s - {q[0]} {
        var j :| 0 <= j < |q| && q[j] == k;
        assert j != 0 && tail[j - 1] == k;
      }
    }
  }

  // ---------------------------------------------------------------------------
  // Decimal rendering of the f-string fields
  // ---------------------------------------------------------------------------

  predicate IsDigit(c: char)
  {
    '0' <= c <= '9'
  }

  function DigitChar(d: nat): (c: char)
    requires d < 10
    ensures IsDigit(c)
  {
    "0123456789"[d]
  }

  function DigitValue(c: char): (d: nat)
    requires IsDigit(c)
    ensures d < 10
  {
    (c as int - '0' as int) as nat
  }

  /** `str(n)` for a non-negative integer: decimal digits without leading zeros. */
  function Decimal(n: nat): (s: string)
    ensures |s| > 0
    ensures forall i :: 0 <= i < |s| ==> IsDigit(s[i])
    ensures |s| > 1 ==> s[0] != '0'
  {
    if n < 10 then [DigitChar(n)]
    else Decimal(n / 10) + [DigitChar(n % 10)]
  }

  /** A non-empty string of decimal digits. */
  predicate IsNumeral(s: string)
  {
    |s| > 0 && forall i :: 0 <= i < |s| ==> IsDigit(s[i])
  }

  /** The value of a string of decimal digits, as `int()` reads it. */
  function NumeralValue(s: string): nat
    requires forall i :: 0 <= i < |s| ==> IsDigit(s[i])
  {
    if |s| == 0 then 0
    else NumeralValue(s[..|s| - 1]) * 10 + DigitValue(s[|s| - 1])
  }

  /** Reading back a rendered number gives the number. */
  lemma {:induction false} DecimalRoundTrip(n: nat)
    ensures NumeralValue(Decimal(n)) == n
  {
    var s := Decimal(n);
    if n < 10 {
      assert s[..0] == [];
    } else {
      DecimalRoundTrip(n / 10);
      assert s[..|s| - 1] == Decimal(n / 10);
    }
  }

  // ---------------------------------------------------------------------------
  // Splitting on a separator, to read a row back
  // ---------------------------------------------------------------------------

  /** `s.split(sep)`: the pieces between separators, always at least one. */
  function Split(s: string, sep: char): (r: seq<string>)
    ensures |r| > 0
  {
    if |s| == 0 then [""]
    else
      var rest := Split(s[1..], sep);
      if s[0] == sep then [""] + rest
      else [[s[0]] + rest[0]] + rest[1..]
  }

  /** `sep.join(fields)`. */
  function Join(fields: seq<string>, sep: char): string
    requires |fields| > 0
  {
    if |fields| == 1 then fields[0]
    else fields[0] + [sep] + Join(fields[1..], sep)
  }

  /** A string without the separator splits into itself, and prefixes the first piece of what follows. */
  lemma {:induction false} SplitPrefix(a: string, t: string, sep: char)
    requires sep !in a
    ensures Split(a + t, sep) == [a + Split(t, sep)[0]] + Split(t, sep)[1..]
  {
    if |a| > 0 {
      var r := Split(t, sep);
      assert (a + t)[0] == a[0] && (a + t)[1..] == a[1..] + t;
      SplitPrefix(a[1..], t, sep);
      var rest := Split(a[1..] + t, sep);
      assert rest[0] == a[1..] + r[0] && rest[1..] == r[1..];
      assert [a[0]] + (a[1..] + r[0]) == a + r[0];
    } else {
      var r := Split(t, sep);
      assert a + t == t && a + r[0] == r[0];
      assert r == [r[0]] + r[1..];
    }
  }

  /** Splitting undoes joining, provided no field contains the separator. */
  lemma {:induction false} SplitJoin(fields: seq<string>, sep: char)
    requires |fields| > 0
    requires forall i :: 0 <= i < |fields| ==> sep !in fields[i]
    ensures Split(Join(fields, sep), sep) == fields
  {
    if |fields| == 1 {
      SplitPrefix(fields[0], "", sep);
      assert fields[0] + "" == fields[0];
    } else {
      var t := Join(fields[1..], sep);
      SplitJoin(fields[1..], sep);
      assert fields[0] + [sep] + t == fields[0] + ([sep] + t);
      SplitPrefix(fields[0], [sep] + t, sep);
      assert ([sep] + t)[1..] == t;
      assert fields[0] + "" == fields[0];
      assert fields == [fields[0]] + fields[1..];
    }
  }

  // ---------------------------------------------------------------------------
  // The report
  // ---------------------------------------------------------------------------

  /** The six fields of a row, in header order. */
  function RowFields(k: VariantKey, c: Counts): seq<string>
  {
    [k.chrom, Decimal(k.pos), Decimal(c.h1Ref), Decimal(c.h1Alt), Decimal(c.h2Ref), Decimal(c.h2Alt)]
  }

  /** The row of variant `v` filed under key `k`: the f-string of lines 23-27. */
  function Row(k: VariantKey, v: Variant): (line: string)
    ensures |line| > 0 && line[|line| - 1] == '\n'
  {
    Join(RowFields(k, v.counts), '\t') + "\n"
  }

  /** Reads one row back: chromosome, position and the four counts, or `None`
      for a line that is not six tab-separated fields ending in a newline. */
  function ParseRow(line: string): Option<(VariantKey, Counts)>
  {
    if |line| == 0 || line[|line| - 1] != '\n' then None
    else
      var f := Split(line[..|line| - 1], '\t');
      if |f| != 6 then None
      else if !(IsNumeral(f[1]) && IsNumeral(f[2]) && IsNumeral(f[3]) && IsNumeral(f[4]) && IsNumeral(f[5])) then None
      else
        Some((VariantKey(f[0], NumeralValue(f[1])),
              Counts(NumeralValue(f[2]), NumeralValue(f[3]), NumeralValue(f[4]), NumeralValue(f[5]))))
  }

  /** A row reads back as its key and counts when the chromosome name holds no tab. */
  lemma RowRoundTrip(k: VariantKey, v: Variant)
    requires '\t' !in k.chrom
    ensures ParseRow(Row(k, v)) == Some((k, v.counts))
  {
    var c := v.counts;
    var fields := RowFields(k, c);
    forall i | 0 <= i < |fields|
      ensures '\t' !in fields[i]
    {
      if i > 0 {
        assert forall j :: 0 <= j < |fields[i]| ==> IsDigit(fields[i][j]);
      }
    }
    SplitJoin(fields, '\t');
    var line := Row(k, v);
    assert line[..|line| - 1] == Join(fields, '\t');
    DecimalRoundTrip(k.pos);
    DecimalRoundTrip(c.h1Ref);
    DecimalRoundTrip(c.h1Alt);
    DecimalRoundTrip(c.h2Ref);
    DecimalRoundTrip(c.h2Alt);
  }

  /** `write_results`: the lines of the output file, whose contents are their
      concatenation: the header, then one row per key in sorted order. */
  function WriteResults(m: VariantMap): (lines: seq<string>)
    ensures |lines| == |m| + 1
    ensures lines[0] == Header
    ensures forall i :: 1 <= i < |lines| ==> |lines[i]| > 0 && lines[i][|lines[i]| - 1] == '\n'
  {
    var keys := SortedKeys(m.Keys);
    [Header] + seq(|keys|, i requires 0 <= i < |keys| => Row(keys[i], m[keys[i]]))
  }

  /** Every chromosome name is free of tabs, so each row splits into its six fields. */
  predicate TabFree(m: VariantMap)
  {
    forall k :: k in m ==> '\t' !in k.chrom
  }

  /** Reads every row of a report back, or `None` if some row does not parse. */
  function ParseRows(lines: seq<string>): (r: Option<seq<(VariantKey, Counts)>>)
    ensures r.Some? ==> |r.value| == |lines|
  {
    if |lines| == 0 then Some([])
    else
      match ParseRow(lines[0])
      case None => None
      case Some(row) =>
        match ParseRows(lines[1..])
        case None => None
        case Some(rest) => Some([row] + rest)
  }

  lemma {:induction false} ParseRowsAt(lines: seq<string>, i: nat)
    requires ParseRows(lines).Some? && i < |lines|
    ensures ParseRow(lines[i]) == Some(ParseRows(lines).value[i])
  {
    if i > 0 {
      ParseRowsAt(lines[1..], i - 1);
    }
  }

  lemma {:induction false} ParseRowsAll(lines: seq<string>)
    requires forall i :: 0 <= i < |lines| ==> ParseRow(lines[i]).Some?
    ensures ParseRows(lines).Some?
  {
    if |lines| > 0 {
      ParseRowsAll(lines[1..]);
    }
  }

  /** The report's rows as (key, counts) pairs, in sorted key order. */
  function Table(m: VariantMap): (t: seq<(VariantKey, Counts)>)
    ensures |t| == |m|
  {
    var keys := SortedKeys(m.Keys);
    seq(|keys|, i requires 0 <= i < |keys| => (keys[i], m[keys[i]].counts))
  }

  /** The table lists every variant of the map exactly once, in ascending
      (chromosome, position) order, with its four counts. */
  lemma TableListsMap(m: VariantMap)
    ensures var t := Table(m);
            && (forall i :: 0 <= i < |t| ==> t[i].0 in m && t[i].1 == m[t[i].0].counts)
            && (forall k :: k in m <==> exists i :: 0 <= i < |t| && t[i].0 == k)
            && (forall i, j :: 0 <= i < j < |t| ==> KeyLt(t[i].0, t[j].0))
  {
    var t := Table(m);
    var keys := SortedKeys(m.Keys);
    forall k | k in m
      ensures exists i :: 0 <= i < |t| && t[i].0 == k
    {
      var i :| 0 <= i < |keys| && keys[i] == k;
      assert t[i].0 == k;
    }
  }

  /** The rows after the header read back as the table. */
  lemma RowsReadBack(m: VariantMap)
    requires TabFree(m)
    ensures ParseRows(WriteResults(m)[1..]) == Some(Table(m))
  {
    var body := WriteResults(m)[1..];
    var keys := SortedKeys(m.Keys);
    var t := Table(m);
    forall i | 0 <= i < |body|
      ensures ParseRow(body[i]) == Some(t[i])
    {
      assert body[i] == Row(keys[i], m[keys[i]]);
      RowRoundTrip(keys[i], m[keys[i]]);
    }
    ParseRowsAll(body);
    var rows := ParseRows(body).value;
    forall i | 0 <= i < |rows|
      ensures rows[i] == t[i]
    {
      ParseRowsAt(body, i);
    }
    assert rows == t;
  }

  /** Reading the report back: the header, then every variant of the map exactly
      once, in ascending (chromosome, position) order, with its four counts. */
  lemma WriteReadBack(m: VariantMap)
    requires TabFree(m)
    ensures var lines := WriteResults(m);
            var rows := ParseRows(lines[1..]);
            && lines[0] == Header
            && rows.Some?
            && |rows.value| == |m|
            && (forall i :: 0 <= i < |rows.value| ==>
                  rows.value[i].0 in m && rows.value[i].1 == m[rows.value[i].0].counts)
            && (forall k :: k in m <==> exists i :: 0 <= i < |rows.value| && rows.value[i].0 == k)
            && (forall i, j :: 0 <= i < j < |rows.value| ==> KeyLt(rows.value[i].0, rows.value[j].0))
  {
    RowsReadBack(m);
    TableListsMap(m);
  }

  /** With no variants the file holds the header alone. */
  lemma WriteEmpty()
    ensures WriteResults(map[]) == [Header]
  {
  }

  lemma WriteExamples()
    ensures var k := VariantKey("chr1", 9);
            WriteResults(map[k := Variant(k, "A", "T", Counts(3, 1, 0, 12))])
              == [Header, "chr1\t9\t3\t1\t0\t12\n"]
  {
    var k := VariantKey("chr1", 9);
    var m := map[k := Variant(k, "A", "T", Counts(3, 1, 0, 12))];
    assert m.Keys == {k};
    assert SortedKeys(m.Keys) == [k];
    assert Decimal(12) == "12" by {
      assert Decimal(1) == "1";
    }
    assert RowFields(k, m[k].counts) == ["chr1", "9", "3", "1", "0", "12"];
    assert Join(["chr1", "9", "3", "1", "0", "12"], '\t') == "chr1\t9\t3\t1\t0\t12";
    assert Row(k, m[k]) == "chr1\t9\t3\t1\t0\t12\n";
    assert WriteResults(m) == [Header] + [Row(k, m[k])];
  }
}
