/** The variant-file loader of `aqp4.py` (`get_results`): pick the header,
    clean its field names, melt the sample columns into one long record
    per (sample, variant), split the genotype field and the variant
    identifier, classify the genotype call into three allele buckets, and
    pivot into one wide row per sample with a `{pos}_alleles` and a
    `{pos}_dosage` column per position.

    A file is the sequence of its lines as Python iterates over them, each
    still carrying its line terminator.  The wide table is a map from
    sample name to a map from column name to cell text; dosages stay the
    text of the genotype field. */
module VariantTable {
  import opened Results
  import opened Strings
  import opened Sorting

  /** The number of fixed VCF columns in front of the sample columns:
      CHROM, POS, ID, REF, ALT, QUAL, FILTER, INFO and FORMAT.  Only their
      number matters to the loader. */
  const VcfColumnCount: nat := 9

  type Row = map<string, string>
  type Wide = map<string, Row>

  /** The ways `get_results` fails (pandas raises where the model returns
      one of these). */
  datatype LoadError =
    | NoData              // no data line: `read_csv` has nothing to parse
    | NoHeader            // no `#` line: the empty header cannot name the columns
    | FieldCountMismatch  // a data line has a different number of fields than the header
    | NoIdColumn          // no header field is `ID`, so the melt has no id column
    | NoSamples           // no sample column: the genotype split yields no columns to assign
    | DuplicateEntry      // two long records share sample and variant id: the first pivot fails
    | BadGenotypeField    // a genotype field does not split into exactly two `:` pieces
    | BadVariantId        // a variant id has fewer than four `:` pieces
    | DuplicatePosition   // two long records share sample and position: the wide pivot fails

  // ---------------------------------------------------------------------
  // header selection and cleaning
  // ---------------------------------------------------------------------

  predicate IsComment(line: string) {
    StartsWith(line, "#")
  }

  /** The index of the last line starting with `#`: the loop over the file
      overwrites `header` at every such line. */
  function LastCommentIndex(lines: seq<string>): (r: Option<nat>)
    ensures r.Some? ==> r.value < |lines| && IsComment(lines[r.value])
    ensures r.Some? ==> forall j :: r.value < j < |lines| ==> !IsComment(lines[j])
    ensures r.None? ==> forall j :: 0 <= j < |lines| ==> !IsComment(lines[j])
  {
    if |lines| == 0 then None
    else if IsComment(lines[|lines| - 1]) then Some(|lines| - 1)
    else LastCommentIndex(lines[..|lines| - 1])
  }

  /** The `header` the loop leaves: the last line starting with `#`, or
      none when no line does. */
  function Header(lines: seq<string>): (r: Option<string>)
    ensures r.Some? <==> exists i :: 0 <= i < |lines| && IsComment(lines[i])
    ensures r.Some? ==> exists i :: 0 <= i < |lines| && lines[i] == r.value && IsComment(lines[i])
                                    && forall j :: i < j < |lines| ==> !IsComment(lines[j])
  {
    match LastCommentIndex(lines)
    case None => None
    case Some(i) => Some(lines[i])
  }

  lemma {:induction false} LastCommentIndexAppend(a: seq<string>, b: seq<string>)
    requires exists j :: 0 <= j < |b| && IsComment(b[j])
    ensures LastCommentIndex(b).Some?
    ensures LastCommentIndex(a + b) == Some(|a| + LastCommentIndex(b).value)
    decreases |b|
  {
    var ab := a + b;
    assert ab[|ab| - 1] == b[|b| - 1];
    if !IsComment(b[|b| - 1]) {
      var j :| 0 <= j < |b| && IsComment(b[j]);
      var b' := b[..|b| - 1];
      assert j < |b| - 1 && b'[j] == b[j];
      assert ab[..|ab| - 1] == a + b';
      LastCommentIndexAppend(a, b');
    }
  }

  /** Lines before the last `#` line play no part in choosing the header. */
  lemma HeaderIgnoresEarlierLines(a: seq<string>, b: seq<string>)
    requires exists j :: 0 <= j < |b| && IsComment(b[j])
    ensures Header(a + b) == Header(b)
  {
    LastCommentIndexAppend(a, b);
    var i := LastCommentIndex(b).value;
    assert (a + b)[|a| + i] == b[i];
  }

  /** `clean_header`: strip newlines from both ends, drop everything up to
      and including the first `_`, then strip `#` from both ends. */
  function CleanHeader(col: string): (r: string)
    ensures r != [] ==> r[0] != '#' && r[|r| - 1] != '#'
    ensures exists k :: OccursAt(col, r, k)
  {
    var trimmed := Strip(col, {'\n'});
    var after := AfterFirst(trimmed, '_');
    CleanHeaderPiece(col, trimmed, after, Strip(after, {'#'}));
    Strip(after, {'#'})
  }

  /** The cleaned name is a contiguous piece of the header field. */
  lemma CleanHeaderPiece(col: string, trimmed: string, after: string, r: string)
    requires trimmed == Strip(col, {'\n'}) && after == AfterFirst(trimmed, '_') && r == Strip(after, {'#'})
    ensures exists k :: OccursAt(col, r, k)
  {
    StripOccurs(col, {'\n'});
    AfterFirstOccurs(trimmed, '_');
    StripOccurs(after, {'#'});
    OccursWithin(col, trimmed, after);
    OccursWithin(col, after, r);
  }

  lemma CleanHeaderVia(col: string, trimmed: string, after: string)
    requires Strip(col, {'\n'}) == trimmed
    requires AfterFirst(trimmed, '_') == after
    ensures CleanHeader(col) == Strip(after, {'#'})
  {
  }

  /** The `#` that starts the header line goes (`#CHROM` gives `CHROM`). */
  lemma CleanHeaderHashed(name: string)
    requires '_' !in name
    requires name != [] ==> name[0] != '\n' && name[0] != '#'
    requires name != [] ==> name[|name| - 1] != '\n' && name[|name| - 1] != '#'
    ensures CleanHeader(['#'] + name) == name
  {
    var s := ['#'] + name;
    assert s[0] == '#' && s[|s| - 1] != '\n';
    assert '_' !in s;
    StripUnchanged(s, {'\n'});
    AfterFirstAbsent(s, '_');
    CleanHeaderVia(s, s, s);
    StripLeading('#', name, {'#'});
    StripUnchanged(name, {'#'});
  }

  /** The last field keeps the line's newline, which goes before the
      prefix does (`S1_x\n` gives `x`). */
  lemma CleanHeaderLastField(prefix: string, rest: string)
    requires '_' !in prefix
    requires prefix != [] ==> prefix[0] != '\n'
    requires rest != [] ==> rest[|rest| - 1] != '\n'
    requires rest != [] ==> rest[0] != '#' && rest[|rest| - 1] != '#'
    ensures CleanHeader(prefix + ['_'] + rest + ['\n']) == rest
  {
    var col := prefix + ['_'] + rest;
    StripTrailing(col, '\n', {'\n'});
    StripNewlinesAroundUnderscore(prefix, rest);
    AfterFirstOfPiece(prefix, '_', rest);
    CleanHeaderVia(col + ['\n'], col, rest);
    StripUnchanged(rest, {'#'});
  }

  /** A name without `_` and with no newline or `#` at its ends is kept. */
  lemma CleanHeaderPlain(col: string)
    requires '_' !in col
    requires col != [] ==> col[0] != '\n' && col[0] != '#'
    requires col != [] ==> col[|col| - 1] != '\n' && col[|col| - 1] != '#'
    ensures CleanHeader(col) == col
  {
    StripUnchanged(col, {'\n'});
    AfterFirstAbsent(col, '_');
    CleanHeaderVia(col, col, col);
    StripUnchanged(col, {'#'});
  }

  lemma StripNewlinesAroundUnderscore(prefix: string, rest: string)
    requires prefix != [] ==> prefix[0] != '\n'
    requires rest != [] ==> rest[|rest| - 1] != '\n'
    ensures Strip(prefix + ['_'] + rest, {'\n'}) == prefix + ['_'] + rest
  {
    var col := prefix + ['_'] + rest;
    assert col[0] == if prefix == [] then '_' else prefix[0];
    assert col[|col| - 1] == if rest == [] then '_' else rest[|rest| - 1];
    StripUnchanged(col, {'\n'});
  }

  /** Only the text up to and including the first `_` is removed; later
      underscores stay. */
  lemma CleanHeaderDropsPrefix(prefix: string, rest: string)
    requires '_' !in prefix
    requires prefix != [] ==> prefix[0] != '\n'
    requires rest != [] ==> rest[|rest| - 1] != '\n'
    requires rest != [] ==> rest[0] != '#' && rest[|rest| - 1] != '#'
    ensures CleanHeader(prefix + ['_'] + rest) == rest
  {
    var col := prefix + ['_'] + rest;
    StripNewlinesAroundUnderscore(prefix, rest);
    AfterFirstOfPiece(prefix, '_', rest);
    CleanHeaderVia(col, col, rest);
    StripUnchanged(rest, {'#'});
  }

  /** The cleaned header fields; empty when the file has no `#` line. */
  function HeaderFields(lines: seq<string>): (h: seq<string>)
    ensures Header(lines).None? ==> h == []
    ensures Header(lines).Some? ==>
              |h| == |Split(Header(lines).value, '\t')| > 0 &&
              forall i :: 0 <= i < |h| ==> h[i] == CleanHeader(Split(Header(lines).value, '\t')[i])
  {
    match Header(lines)
    case None => []
    case Some(h) => MapSeq(Split(h, '\t'), CleanHeader)
  }

  /** The sample columns: every header field after the fixed nine. */
  function SampleColumns(headers: seq<string>): (samples: seq<string>)
    ensures |samples| == if |headers| < VcfColumnCount then 0 else |headers| - VcfColumnCount
    ensures forall i :: 0 <= i < |samples| ==> samples[i] == headers[VcfColumnCount + i]
  {
    if |headers| < VcfColumnCount then [] else headers[VcfColumnCount..]
  }

  /** The first position of `x` in `xs`. */
  function IndexOf(xs: seq<string>, x: string): (r: Option<nat>)
    ensures r.Some? ==> r.value < |xs| && xs[r.value] == x && forall j :: 0 <= j < r.value ==> xs[j] != x
    ensures r.None? ==> forall j :: 0 <= j < |xs| ==> xs[j] != x
  {
    if |xs| == 0 then None
    else if xs[0] == x then Some(0)
    else match IndexOf(xs[1..], x)
      case None => None
      case Some(i) => Some(i + 1)
  }

  // ---------------------------------------------------------------------
  // data lines
  // ---------------------------------------------------------------------

  /** The line without its terminator (`\n`, or `\r\n`). */
  function DropLineEnd(line: string): string {
    var l := if EndsWith(line, "\n") then line[..|line| - 1] else line;
    if EndsWith(l, "\r") then l[..|l| - 1] else l
  }

  predicate IsDataLine(line: string) {
    !IsComment(line) && DropLineEnd(line) != ""
  }

  /** The tab-separated fields of every non-`#`, non-blank line, in file
      order (`read_csv` with `sep="\t"`, `header=None`). */
  function DataRows(lines: seq<string>): (rows: seq<seq<string>>)
    ensures |rows| <= |lines|
  {
    if |lines| == 0 then []
    else
      var last := lines[|lines| - 1];
      DataRows(lines[..|lines| - 1]) + (if IsDataLine(last) then [Split(DropLineEnd(last), '\t')] else [])
  }

  lemma {:induction false} DataRowsAppend(a: seq<string>, b: seq<string>)
    ensures DataRows(a + b) == DataRows(a) + DataRows(b)
    decreases |b|
  {
    if |b| == 0 {
      assert a + b == a;
    } else {
      assert (a + b)[..|a + b| - 1] == a + b[..|b| - 1];
      DataRowsAppend(a, b[..|b| - 1]);
    }
  }

  /** There are no data rows exactly when no line is a data line. */
  lemma {:induction false} DataRowsEmpty(lines: seq<string>)
    ensures |DataRows(lines)| == 0 <==> forall i :: 0 <= i < |lines| ==> !IsDataLine(lines[i])
  {
    if |lines| > 0 {
      var init := lines[..|lines| - 1];
      DataRowsEmpty(init);
      assert forall i :: 0 <= i < |init| ==> init[i] == lines[i];
    }
  }

  /** A `#` line never becomes a data row. */
  lemma DataRowsSkipComment(a: seq<string>, c: string, b: seq<string>)
    requires IsComment(c)
    ensures DataRows(a + [c] + b) == DataRows(a + b)
  {
    DataRowsAppend(a + [c], b);
    DataRowsAppend(a, [c]);
    DataRowsAppend(a, b);
    assert [c][..0] == [];
  }

  // ---------------------------------------------------------------------
  // melt
  // ---------------------------------------------------------------------

  /** One row of the melted table: a sample, a variant id and the raw
      genotype field of that sample on that variant's line. */
  datatype LongRecord = LongRecord(sample: string, variantId: string, raw: string)

  /** Where the records of sample column `i` start in the melted table
      when there are `n` data rows: pandas' `melt` lists the rows of each
      sample column in turn, so this is `i * n`. */
  function SampleOffset(i: nat, n: nat): nat {
    if i == 0 then 0 else SampleOffset(i - 1, n) + n
  }

  /** The position of the record for sample column `i` and data row `j`. */
  function MeltIndex(i: nat, j: nat, n: nat): nat {
    SampleOffset(i, n) + j
  }

  lemma {:induction false} SampleOffsetValue(i: nat, n: nat)
    ensures SampleOffset(i, n) == i * n
  {
    if i > 0 {
      SampleOffsetValue(i - 1, n);
      assert (i - 1) * n + n == i * n;
    }
  }

  lemma {:induction false} MeltIndexBounds(i: nat, j: nat, m: nat, n: nat)
    requires i < m && j < n
    ensures MeltIndex(i, j, n) < SampleOffset(m, n)
  {
    if i < m - 1 {
      MeltIndexBounds(i, j, m - 1, n);
    }
  }

  /** The sample column and the data row of the record at index `k`. */
  function SampleOf(k: nat, n: nat): nat {
    if n == 0 || k < n then 0 else 1 + SampleOf(k - n, n)
  }

  function RowOf(k: nat, n: nat): nat {
    if n == 0 || k < n then k else RowOf(k - n, n)
  }

  lemma {:induction false} MeltIndexInverse(i: nat, j: nat, n: nat)
    requires j < n
    ensures SampleOf(MeltIndex(i, j, n), n) == i && RowOf(MeltIndex(i, j, n), n) == j
  {
    if i > 0 {
      MeltIndexInverse(i - 1, j, n);
      assert MeltIndex(i, j, n) - n == MeltIndex(i - 1, j, n);
    }
  }

  /** The melted records of one sample column, one per data row. */
  function MeltColumn(sample: string, rows: seq<seq<string>>, idCol: nat, col: nat): (c: seq<LongRecord>)
    requires forall j :: 0 <= j < |rows| ==> idCol < |rows[j]| && col < |rows[j]|
    ensures |c| == |rows|
    ensures forall j :: 0 <= j < |rows| ==> c[j] == LongRecord(sample, rows[j][idCol], rows[j][col])
  {
    if |rows| == 0 then []
    else
      var n := |rows| - 1;
      MeltColumn(sample, rows[..n], idCol, col) + [LongRecord(sample, rows[n][idCol], rows[n][col])]
  }

  /** Every record of the melted table for `samples` and `rows` sits at the
      index of its (sample, row) pair, and nothing else is there. */
  ghost predicate MeltedFrom(m: seq<LongRecord>, samples: seq<string>, rows: seq<seq<string>>, idCol: nat)
    requires forall j :: 0 <= j < |rows| ==> idCol < |rows[j]| && VcfColumnCount + |samples| <= |rows[j]|
  {
    && |m| == SampleOffset(|samples|, |rows|)
    && (forall i, j :: 0 <= i < |samples| && 0 <= j < |rows| ==>
          MeltIndex(i, j, |rows|) < |m| &&
          m[MeltIndex(i, j, |rows|)] == LongRecord(samples[i], rows[j][idCol], rows[j][VcfColumnCount + i]))
    && (forall k :: 0 <= k < |m| ==>
          SampleOf(k, |rows|) < |samples| && RowOf(k, |rows|) < |rows| &&
          m[k] == LongRecord(samples[SampleOf(k, |rows|)], rows[RowOf(k, |rows|)][idCol],
                             rows[RowOf(k, |rows|)][VcfColumnCount + SampleOf(k, |rows|)]))
  }

  lemma MeltStepAt(m': seq<LongRecord>, column: seq<LongRecord>, samples: seq<string>, rows: seq<seq<string>>, idCol: nat)
    requires |samples| > 0
    requires forall j :: 0 <= j < |rows| ==> idCol < |rows[j]| && VcfColumnCount + |samples| <= |rows[j]|
    requires MeltedFrom(m', samples[..|samples| - 1], rows, idCol)
    requires column == MeltColumn(samples[|samples| - 1], rows, idCol, VcfColumnCount + |samples| - 1)
    ensures forall i, j :: 0 <= i < |samples| && 0 <= j < |rows| ==>
              MeltIndex(i, j, |rows|) < |m' + column| &&
              (m' + column)[MeltIndex(i, j, |rows|)] == LongRecord(samples[i], rows[j][idCol], rows[j][VcfColumnCount + i])
  {
    var last := |samples| - 1;
    forall i, j | 0 <= i < |samples| && 0 <= j < |rows|
      ensures MeltIndex(i, j, |rows|) < |m' + column|
      ensures (m' + column)[MeltIndex(i, j, |rows|)] == LongRecord(samples[i], rows[j][idCol], rows[j][VcfColumnCount + i])
    {
      if i < last {
        MeltStepAtOld(m', column, samples, rows, idCol, i, j);
      } else {
        MeltStepAtNew(m', column, samples, rows, idCol, j);
      }
    }
  }

  lemma MeltStepAtNew(m': seq<LongRecord>, column: seq<LongRecord>, samples: seq<string>, rows: seq<seq<string>>, idCol: nat, j: nat)
    requires |samples| > 0 && j < |rows|
    requires forall j :: 0 <= j < |rows| ==> idCol < |rows[j]| && VcfColumnCount + |samples| <= |rows[j]|
    requires |m'| == SampleOffset(|samples| - 1, |rows|)
    requires column == MeltColumn(samples[|samples| - 1], rows, idCol, VcfColumnCount + |samples| - 1)
    ensures MeltIndex(|samples| - 1, j, |rows|) < |m' + column|
    ensures (m' + column)[MeltIndex(|samples| - 1, j, |rows|)]
            == LongRecord(samples[|samples| - 1], rows[j][idCol], rows[j][VcfColumnCount + |samples| - 1])
  {
    var last := |samples| - 1;
    var k := MeltIndex(last, j, |rows|);
    assert k == |m'| + j;
    assert (m' + column)[k] == column[j];
    assert column[j] == LongRecord(samples[last], rows[j][idCol], rows[j][VcfColumnCount + last]);
  }

  lemma MeltStepAtOld(m': seq<LongRecord>, column: seq<LongRecord>, samples: seq<string>, rows: seq<seq<string>>, idCol: nat, i: nat, j: nat)
    requires i < |samples| - 1 && j < |rows|
    requires forall j :: 0 <= j < |rows| ==> idCol < |rows[j]| && VcfColumnCount + |samples| <= |rows[j]|
    requires MeltedFrom(m', samples[..|samples| - 1], rows, idCol)
    ensures MeltIndex(i, j, |rows|) < |m'|
    ensures (m' + column)[MeltIndex(i, j, |rows|)] == LongRecord(samples[i], rows[j][idCol], rows[j][VcfColumnCount + i])
  {
    var last := |samples| - 1;
    MeltIndexBounds(i, j, last, |rows|);
    assert samples[..last][i] == samples[i];
  }

  lemma MeltStepBack(m': seq<LongRecord>, column: seq<LongRecord>, samples: seq<string>, rows: seq<seq<string>>, idCol: nat)
    requires |samples| > 0
    requires forall j :: 0 <= j < |rows| ==> idCol < |rows[j]| && VcfColumnCount + |samples| <= |rows[j]|
    requires MeltedFrom(m', samples[..|samples| - 1], rows, idCol)
    requires column == MeltColumn(samples[|samples| - 1], rows, idCol, VcfColumnCount + |samples| - 1)
    ensures forall k :: 0 <= k < |m' + column| ==>
              SampleOf(k, |rows|) < |samples| && RowOf(k, |rows|) < |rows| &&
              (m' + column)[k] == LongRecord(samples[SampleOf(k, |rows|)], rows[RowOf(k, |rows|)][idCol],
                                             rows[RowOf(k, |rows|)][VcfColumnCount + SampleOf(k, |rows|)])
  {
    forall k | 0 <= k < |m' + column|
      ensures SampleOf(k, |rows|) < |samples| && RowOf(k, |rows|) < |rows|
      ensures (m' + column)[k] == LongRecord(samples[SampleOf(k, |rows|)], rows[RowOf(k, |rows|)][idCol],
                                             rows[RowOf(k, |rows|)][VcfColumnCount + SampleOf(k, |rows|)])
    {
      if k >= |m'| {
        MeltStepBackNew(m', column, samples, rows, idCol, k);
      } else {
        MeltStepBackOld(m', column, samples, rows, idCol, k);
      }
    }
  }

  lemma MeltStepBackNew(m': seq<LongRecord>, column: seq<LongRecord>, samples: seq<string>, rows: seq<seq<string>>, idCol: nat, k: nat)
    requires |samples| > 0
    requires forall j :: 0 <= j < |rows| ==> idCol < |rows[j]| && VcfColumnCount + |samples| <= |rows[j]|
    requires |m'| == SampleOffset(|samples| - 1, |rows|)
    requires column == MeltColumn(samples[|samples| - 1], rows, idCol, VcfColumnCount + |samples| - 1)
    requires |m'| <= k < |m' + column|
    ensures SampleOf(k, |rows|) < |samples| && RowOf(k, |rows|) < |rows|
    ensures (m' + column)[k] == LongRecord(samples[SampleOf(k, |rows|)], rows[RowOf(k, |rows|)][idCol],
                                           rows[RowOf(k, |rows|)][VcfColumnCount + SampleOf(k, |rows|)])
  {
    var last := |samples| - 1;
    var j := k - |m'|;
    MeltIndexInverse(last, j, |rows|);
    assert k == MeltIndex(last, j, |rows|);
    assert (m' + column)[k] == column[j];
  }

  lemma MeltStepBackOld(m': seq<LongRecord>, column: seq<LongRecord>, samples: seq<string>, rows: seq<seq<string>>, idCol: nat, k: nat)
    requires |samples| > 0
    requires forall j :: 0 <= j < |rows| ==> idCol < |rows[j]| && VcfColumnCount + |samples| <= |rows[j]|
    requires MeltedFrom(m', samples[..|samples| - 1], rows, idCol)
    requires k < |m'|
    ensures SampleOf(k, |rows|) < |samples| && RowOf(k, |rows|) < |rows|
    ensures (m' + column)[k] == LongRecord(samples[SampleOf(k, |rows|)], rows[RowOf(k, |rows|)][idCol],
                                           rows[RowOf(k, |rows|)][VcfColumnCount + SampleOf(k, |rows|)])
  {
    var last := |samples| - 1;
    var i := SampleOf(k, |rows|);
    assert (m' + column)[k] == m'[k];
    assert i < last;
    assert samples[..last][i] == samples[i];
  }

  /** Appending the records of the next sample column keeps the melted
      table in place. */
  lemma MeltStep(m': seq<LongRecord>, column: seq<LongRecord>, samples: seq<string>, rows: seq<seq<string>>, idCol: nat)
    requires |samples| > 0
    requires forall j :: 0 <= j < |rows| ==> idCol < |rows[j]| && VcfColumnCount + |samples| <= |rows[j]|
    requires MeltedFrom(m', samples[..|samples| - 1], rows, idCol)
    requires column == MeltColumn(samples[|samples| - 1], rows, idCol, VcfColumnCount + |samples| - 1)
    ensures MeltedFrom(m' + column, samples, rows, idCol)
  {
    MeltStepAt(m', column, samples, rows, idCol);
    MeltStepBack(m', column, samples, rows, idCol);
  }

  /** `df.melt(id_vars=["ID"], value_vars=sample_cols)`: exactly one long
      record per (sample column, data row), carrying that row's id and the
      field in that sample's column, sample columns one after another. */
  function Melt(samples: seq<string>, rows: seq<seq<string>>, idCol: nat): (m: seq<LongRecord>)
    requires forall j :: 0 <= j < |rows| ==> idCol < |rows[j]| && VcfColumnCount + |samples| <= |rows[j]|
    ensures MeltedFrom(m, samples, rows, idCol)
    ensures |m| == |samples| * |rows|
    decreases |samples|
  {
    if |samples| == 0 then []
    else
      var last := |samples| - 1;
      var m' := Melt(samples[..last], rows, idCol);
      var column := MeltColumn(samples[last], rows, idCol, VcfColumnCount + last);
      MeltStep(m', column, samples, rows, idCol);
      SampleOffsetValue(|samples|, |rows|);
      m' + column
  }

  // ---------------------------------------------------------------------
  // the genotype field and the variant id
  // ---------------------------------------------------------------------

  /** The two pieces of a `GT:DS` field: the genotype call and the dosage. */
  datatype GenotypeField = GenotypeField(call: string, dosage: string)

  function FormatGenotypeField(f: GenotypeField): string {
    f.call + [':'] + f.dosage
  }

  /** `long["gt_prob"].str.split(":", expand=True)` assigned to the two
      columns `gt` and `dosage`: the field must have exactly two pieces. */
  function ParseGenotypeField(raw: string): (r: Option<GenotypeField>)
    ensures r.Some? ==> FormatGenotypeField(r.value) == raw && ':' !in r.value.call && ':' !in r.value.dosage
  {
    var parts := Split(raw, ':');
    if |parts| == 2 then
      assert parts == [parts[0], parts[1]];
      SplitTwo(raw, ':', parts[0], parts[1]);
      Some(GenotypeField(parts[0], parts[1]))
    else None
  }

  /** Every field of the form `call:dosage` is accepted and split back. */
  lemma ParseFormatGenotypeField(f: GenotypeField)
    requires ':' !in f.call && ':' !in f.dosage
    ensures ParseGenotypeField(FormatGenotypeField(f)) == Some(f)
  {
    SplitTwo(FormatGenotypeField(f), ':', f.call, f.dosage);
  }

  /** A variant id `chrom:pos:ref:alt`. */
  datatype VariantId = VariantId(chrom: string, pos: string, ref: string, alt: string)

  function FormatVariantId(v: VariantId): string {
    v.chrom + [':'] + v.pos + [':'] + v.ref + [':'] + v.alt
  }

  predicate ColonFree(v: VariantId) {
    ':' !in v.chrom && ':' !in v.pos && ':' !in v.ref && ':' !in v.alt
  }

  /** `snp_id.str.split(":")`, pieces 1, 2 and 3 giving position, reference
      and alternate allele.  Further pieces are allowed and ignored. */
  function ParseVariantId(id: string): (r: Option<VariantId>)
    ensures r.Some? ==> ColonFree(r.value) && StartsWith(id, FormatVariantId(r.value))
    ensures r.Some? ==> |id| == |FormatVariantId(r.value)| || id[|FormatVariantId(r.value)|] == ':'
    ensures r.None? ==> |Split(id, ':')| < 4
  {
    var parts := Split(id, ':');
    if |parts| >= 4 then
      var v := VariantId(parts[0], parts[1], parts[2], parts[3]);
      VariantIdPrefix(parts);
      Some(v)
    else None
  }

  lemma JoinUnfold(parts: seq<string>, sep: char)
    requires |parts| > 1
    ensures Join(parts, sep) == parts[0] + [sep] + Join(parts[1..], sep)
  {
  }

  lemma VariantIdPrefix(parts: seq<string>)
    requires |parts| >= 4
    ensures var f := FormatVariantId(VariantId(parts[0], parts[1], parts[2], parts[3]));
            StartsWith(Join(parts, ':'), f) && (|Join(parts, ':')| == |f| || Join(parts, ':')[|f|] == ':')
  {
    var f := FormatVariantId(VariantId(parts[0], parts[1], parts[2], parts[3]));
    var tail := if |parts| == 4 then "" else [':'] + Join(parts[4..], ':');
    assert Join(parts[3..], ':') == parts[3] + tail by {
      assert parts[3..][1..] == parts[4..];
    }
    JoinUnfold(parts[2..], ':');
    assert parts[2..][1..] == parts[3..];
    JoinUnfold(parts[1..], ':');
    assert parts[1..][1..] == parts[2..];
    JoinUnfold(parts, ':');
    assert Join(parts, ':') == parts[0] + [':'] + (parts[1] + [':'] + (parts[2] + [':'] + (parts[3] + tail)));
    assert Join(parts, ':') == f + tail;
    assert (f + tail)[..|f|] == f;
  }

  /** Every well-formed four-piece id is accepted and split back. */
  lemma ParseFormatVariantId(v: VariantId)
    requires ColonFree(v)
    ensures ParseVariantId(FormatVariantId(v)) == Some(v)
  {
    var parts := [v.chrom, v.pos, v.ref, v.alt];
    assert Join(parts[3..], ':') == v.alt;
    assert Join(parts[2..], ':') == v.ref + [':'] + v.alt by {
      assert parts[2..][1..] == parts[3..];
    }
    assert Join(parts[1..], ':') == v.pos + [':'] + v.ref + [':'] + v.alt by {
      assert parts[1..][1..] == parts[2..];
    }
    assert Join(parts, ':') == FormatVariantId(v);
    SplitJoin(parts, ':');
  }

  // ---------------------------------------------------------------------
  // the classifier
  // ---------------------------------------------------------------------

  /** `genotype_to_alleles`: `0|0` is "1", `2|2` is "3" and every other text
      (any other pair, an unphased `0/0`, a single token) is "2".  It
      never fails. */
  function Classify(gt: string): (a: string)
    ensures a == "1" || a == "2" || a == "3"
    ensures a == "1" <==> gt == "0|0"
    ensures a == "3" <==> gt == "2|2"
  {
    var alleles := Split(gt, '|');
    SplitTwo(gt, '|', "0", "0");
    SplitTwo(gt, '|', "2", "2");
    if alleles == ["0", "0"] then "1"
    else if alleles == ["2", "2"] then "3"
    else "2"
  }

  lemma ClassifyExamples()
    ensures Classify("0|1") == "2" && Classify("1|1") == "2" && Classify("1|2") == "2"
    ensures Classify("0/0") == "2" && Classify("0") == "2"
  {
    assert "1|1"[0] != "0|0"[0] && "1|1"[0] != "2|2"[0];
    assert "0|1"[2] != "0|0"[2] && "0|1"[2] != "2|2"[2];
    assert "1|2"[0] != "0|0"[0] && "1|2"[0] != "2|2"[0];
    assert "0/0"[1] != "0|0"[1] && "0/0"[1] != "2|2"[1];
  }

  // ---------------------------------------------------------------------
  // annotation of the long table
  // ---------------------------------------------------------------------

  /** A long record with its genotype field and variant id split and its
      call classified. */
  datatype Annotated = Annotated(sample: string, variant: VariantId, field: GenotypeField, alleles: string)

  /** Splits every genotype field (all of them first, as pandas does the
      whole column at once), then every variant id, and classifies each
      call. */
  function Annotate(melted: seq<LongRecord>): (r: Result<seq<Annotated>, LoadError>)
    ensures r.Success? <==> forall k :: 0 <= k < |melted| ==>
              ParseGenotypeField(melted[k].raw).Some? && ParseVariantId(melted[k].variantId).Some?
    ensures r.Failure? ==> (r.error == BadGenotypeField <==>
              exists k :: 0 <= k < |melted| && ParseGenotypeField(melted[k].raw).None?)
    ensures r.Failure? ==> r.error == BadGenotypeField || r.error == BadVariantId
    ensures r.Success? ==> |r.value| == |melted| && forall k :: 0 <= k < |melted| ==>
              && r.value[k].sample == melted[k].sample
              && FormatGenotypeField(r.value[k].field) == melted[k].raw
              && StartsWith(melted[k].variantId, FormatVariantId(r.value[k].variant))
              && r.value[k].field == ParseGenotypeField(melted[k].raw).value
              && r.value[k].variant == ParseVariantId(melted[k].variantId).value
              && r.value[k].alleles == Classify(r.value[k].field.call)
  {
    if exists k :: 0 <= k < |melted| && ParseGenotypeField(melted[k].raw).None? then
      Failure(BadGenotypeField)
    else if exists k :: 0 <= k < |melted| && ParseVariantId(melted[k].variantId).None? then
      Failure(BadVariantId)
    else
      Success(AnnotateAll(melted))
  }

  /** One record once its genotype field and variant id are known to
      split. */
  function AnnotateRecord(rec: LongRecord): Annotated
    requires ParseGenotypeField(rec.raw).Some? && ParseVariantId(rec.variantId).Some?
  {
    var field := ParseGenotypeField(rec.raw).value;
    Annotated(rec.sample, ParseVariantId(rec.variantId).value, field, Classify(field.call))
  }

  function AnnotateAll(melted: seq<LongRecord>): (r: seq<Annotated>)
    requires forall k :: 0 <= k < |melted| ==>
               ParseGenotypeField(melted[k].raw).Some? && ParseVariantId(melted[k].variantId).Some?
    ensures |r| == |melted| && forall k :: 0 <= k < |melted| ==> r[k] == AnnotateRecord(melted[k])
  {
    if |melted| == 0 then []
    else AnnotateAll(melted[..|melted| - 1]) + [AnnotateRecord(melted[|melted| - 1])]
  }

  // ---------------------------------------------------------------------
  // the wide pivot
  // ---------------------------------------------------------------------

  /** What the wide pivot keeps of an annotated record. */
  datatype Observation = Observation(sample: string, pos: string, alleles: string, dosage: string)

  function Observe(a: Annotated): Observation {
    Observation(a.sample, a.variant.pos, a.alleles, a.field.dosage)
  }

  function AllelesColumn(pos: string): string {
    pos + "_alleles"
  }

  function DosageColumn(pos: string): string {
    pos + "_dosage"
  }

  /** The generated column names never collide. */
  lemma ColumnNamesDistinct(p: string, q: string)
    ensures AllelesColumn(p) != DosageColumn(q)
    ensures AllelesColumn(p) == AllelesColumn(q) ==> p == q
    ensures DosageColumn(p) == DosageColumn(q) ==> p == q
  {
    var a := AllelesColumn(p);
    var d := DosageColumn(q);
    assert a[|a| - 1] == 's' && d[|d| - 1] == 'e';
    if AllelesColumn(p) == AllelesColumn(q) {
      assert p == AllelesColumn(p)[..|p|] && q == AllelesColumn(q)[..|q|];
    }
    if DosageColumn(p) == DosageColumn(q) {
      assert p == DosageColumn(p)[..|p|] && q == DosageColumn(q)[..|q|];
    }
  }

  /** A column name the wide pivot can produce. */
  predicate GeneratedName(c: string) {
    EndsWith(c, "_alleles") || EndsWith(c, "_dosage")
  }

  /** Every column of every row of `w` is a generated name. */
  predicate AllGenerated(w: Wide) {
    forall s, c :: s in w && c in w[s] ==> GeneratedName(c)
  }

  lemma ColumnsForGenerated(ps: set<string>)
    ensures forall c :: c in ColumnsFor(ps) ==> GeneratedName(c)
  {
    forall c | c in ColumnsFor(ps)
      ensures GeneratedName(c)
    {
      var p :| p in ps && (c == AllelesColumn(p) || c == DosageColumn(p));
      if c == AllelesColumn(p) {
        assert c[|c| - |"_alleles"|..] == "_alleles";
      } else {
        assert c[|c| - |"_dosage"|..] == "_dosage";
      }
    }
  }

  /** No two observations share a sample and a position (pandas' `pivot`
      refuses duplicate index/column pairs). */
  predicate UniqueCells(obs: seq<Observation>) {
    forall i, j :: 0 <= i < j < |obs| ==> obs[i].sample != obs[j].sample || obs[i].pos != obs[j].pos
  }

  function SamplesOf(obs: seq<Observation>): set<string> {
    set o | o in obs :: o.sample
  }

  function PositionsOf(obs: seq<Observation>, sample: string): set<string> {
    set o | o in obs && o.sample == sample :: o.pos
  }

  /** The two columns of every position in `ps`. */
  function ColumnsFor(ps: set<string>): set<string> {
    (set p | p in ps :: AllelesColumn(p)) + (set p | p in ps :: DosageColumn(p))
  }

  lemma SamplesOfSnoc(init: seq<Observation>, o: Observation)
    ensures SamplesOf(init + [o]) == SamplesOf(init) + {o.sample}
  {
    forall s | s in SamplesOf(init + [o])
      ensures s in SamplesOf(init) + {o.sample}
    {
      var x :| x in init + [o] && x.sample == s;
    }
    forall s | s in SamplesOf(init)
      ensures s in SamplesOf(init + [o])
    {
      var x :| x in init && x.sample == s;
      assert x in init + [o];
    }
    assert o in init + [o];
  }

  lemma PositionsOfSnoc(init: seq<Observation>, o: Observation, s: string)
    ensures PositionsOf(init + [o], s) == PositionsOf(init, s) + (if o.sample == s then {o.pos} else {})
  {
    forall p | p in PositionsOf(init + [o], s)
      ensures p in PositionsOf(init, s) + (if o.sample == s then {o.pos} else {})
    {
      var x :| x in init + [o] && x.sample == s && x.pos == p;
    }
    forall p | p in PositionsOf(init, s)
      ensures p in PositionsOf(init + [o], s)
    {
      var x :| x in init && x.sample == s && x.pos == p;
      assert x in init + [o];
    }
    assert o in init + [o];
  }

  lemma PositionsOfOtherSample(obs: seq<Observation>, s: string)
    requires s !in SamplesOf(obs)
    ensures PositionsOf(obs, s) == {}
  {
  }

  lemma ColumnsForAdd(ps: set<string>, p: string)
    ensures ColumnsFor(ps + {p}) == ColumnsFor(ps) + {AllelesColumn(p), DosageColumn(p)}
  {
  }

  /** The row keys of one pivot step. */
  lemma PivotRowsStep(init: seq<Observation>, o: Observation, w: Wide, wide: Wide)
    requires w.Keys == SamplesOf(init)
    requires forall s :: s in w ==> w[s].Keys == ColumnsFor(PositionsOf(init, s))
    requires wide == w[o.sample := (if o.sample in w then w[o.sample] else map[])
                                     [AllelesColumn(o.pos) := o.alleles][DosageColumn(o.pos) := o.dosage]]
    ensures wide.Keys == SamplesOf(init + [o])
    ensures forall s :: s in wide ==> wide[s].Keys == ColumnsFor(PositionsOf(init + [o], s))
  {
    SamplesOfSnoc(init, o);
    forall s | s in wide
      ensures wide[s].Keys == ColumnsFor(PositionsOf(init + [o], s))
    {
      PositionsOfSnoc(init, o, s);
      if s == o.sample {
        ColumnsForAdd(PositionsOf(init, s), o.pos);
        if s !in w {
          PositionsOfOtherSample(init, s);
          assert ColumnsFor({}) == {};
        }
      }
    }
  }

  /** The cells of one pivot step. */
  lemma PivotCellsStep(init: seq<Observation>, o: Observation, w: Wide, wide: Wide)
    requires UniqueCells(init + [o])
    requires forall o' :: o' in init ==>
              && o'.sample in w
              && AllelesColumn(o'.pos) in w[o'.sample] && w[o'.sample][AllelesColumn(o'.pos)] == o'.alleles
              && DosageColumn(o'.pos) in w[o'.sample] && w[o'.sample][DosageColumn(o'.pos)] == o'.dosage
    requires wide == w[o.sample := (if o.sample in w then w[o.sample] else map[])
                                     [AllelesColumn(o.pos) := o.alleles][DosageColumn(o.pos) := o.dosage]]
    ensures forall o' :: o' in init + [o] ==>
              && o'.sample in wide
              && AllelesColumn(o'.pos) in wide[o'.sample] && wide[o'.sample][AllelesColumn(o'.pos)] == o'.alleles
              && DosageColumn(o'.pos) in wide[o'.sample] && wide[o'.sample][DosageColumn(o'.pos)] == o'.dosage
  {
    var obs := init + [o];
    forall o' | o' in obs
      ensures && o'.sample in wide
              && AllelesColumn(o'.pos) in wide[o'.sample] && wide[o'.sample][AllelesColumn(o'.pos)] == o'.alleles
              && DosageColumn(o'.pos) in wide[o'.sample] && wide[o'.sample][DosageColumn(o'.pos)] == o'.dosage
    {
      ColumnNamesDistinct(o'.pos, o.pos);
      ColumnNamesDistinct(o.pos, o'.pos);
      if o' != o {
        var i :| 0 <= i < |init| && init[i] == o';
        assert obs[i] == o' && obs[|obs| - 1] == o;
      }
    }
  }

  /** The wide pivot: one row per sample, and in that row the allele
      bucket and dosage of each of its observations under the position's
      two column names. */
  function Pivot(obs: seq<Observation>): (wide: Wide)
    requires UniqueCells(obs)
    ensures wide.Keys == SamplesOf(obs)
    ensures forall s :: s in wide ==> wide[s].Keys == ColumnsFor(PositionsOf(obs, s))
    ensures forall o :: o in obs ==>
              && o.sample in wide
              && AllelesColumn(o.pos) in wide[o.sample] && wide[o.sample][AllelesColumn(o.pos)] == o.alleles
              && DosageColumn(o.pos) in wide[o.sample] && wide[o.sample][DosageColumn(o.pos)] == o.dosage
  {
    if |obs| == 0 then map[]
    else
      var init := obs[..|obs| - 1];
      var o := obs[|obs| - 1];
      assert obs == init + [o];
      var w := Pivot(init);
      var row := if o.sample in w then w[o.sample] else map[];
      var wide := w[o.sample := row[AllelesColumn(o.pos) := o.alleles][DosageColumn(o.pos) := o.dosage]];
      PivotRowsStep(init, o, w, wide);
      PivotCellsStep(init, o, w, wide);
      wide
  }

  /** The position a `{pos}_alleles` column name was built from. */
  function PosOfAllelesColumn(c: string): string
    requires EndsWith(c, "_alleles")
  {
    c[..|c| - |"_alleles"|]
  }

  /** The position an `{pos}_alleles` column name was built from is read
      back off it. */
  lemma AllelesColumnPos(p: string)
    ensures EndsWith(AllelesColumn(p), "_alleles") && PosOfAllelesColumn(AllelesColumn(p)) == p
  {
    var c := AllelesColumn(p);
    assert c[|c| - |"_alleles"|..] == "_alleles";
  }

  /** Melting a wide table back: for every `{pos}_alleles` column that has
      its `{pos}_dosage` partner, one observation. */
  function Unpivot(wide: Wide): set<Observation> {
    set s, c | s in wide && c in wide[s] && EndsWith(c, "_alleles") && DosageColumn(PosOfAllelesColumn(c)) in wide[s]
      :: Observation(s, PosOfAllelesColumn(c), wide[s][c], wide[s][DosageColumn(PosOfAllelesColumn(c))])
  }

  lemma PivotCovers(obs: seq<Observation>, o: Observation)
    requires UniqueCells(obs) && o in obs
    ensures o in Unpivot(Pivot(obs))
  {
    var wide := Pivot(obs);
    var c := AllelesColumn(o.pos);
    AllelesColumnPos(o.pos);
    assert Observation(o.sample, PosOfAllelesColumn(c), wide[o.sample][c], wide[o.sample][DosageColumn(PosOfAllelesColumn(c))]) == o;
  }

  /** An `{p}_alleles` column belongs to the columns of `ps` exactly when
      `p` is one of the positions. */
  lemma AllelesColumnIn(ps: set<string>, p: string)
    ensures AllelesColumn(p) in ColumnsFor(ps) <==> p in ps
  {
    if AllelesColumn(p) in ColumnsFor(ps) {
      var q :| q in ps && (AllelesColumn(p) == AllelesColumn(q) || AllelesColumn(p) == DosageColumn(q));
      ColumnNamesDistinct(p, q);
    }
  }

  lemma UnpivotCell(obs: seq<Observation>, s: string, p: string)
    requires UniqueCells(obs)
    requires s in Pivot(obs) && AllelesColumn(p) in Pivot(obs)[s]
    ensures exists o :: o in obs && o.sample == s && o.pos == p
  {
    AllelesColumnIn(PositionsOf(obs, s), p);
  }

  /** What an observation of the re-melted table says about the wide
      table it came from. */
  lemma UnpivotMember(wide: Wide, x: Observation)
    requires x in Unpivot(wide)
    ensures x.sample in wide
    ensures AllelesColumn(x.pos) in wide[x.sample] && wide[x.sample][AllelesColumn(x.pos)] == x.alleles
    ensures DosageColumn(x.pos) in wide[x.sample] && wide[x.sample][DosageColumn(x.pos)] == x.dosage
  {
    var s, c :| s in wide && c in wide[s] && EndsWith(c, "_alleles") && DosageColumn(PosOfAllelesColumn(c)) in wide[s]
                && x == Observation(s, PosOfAllelesColumn(c), wide[s][c], wide[s][DosageColumn(PosOfAllelesColumn(c))]);
    assert c == AllelesColumn(PosOfAllelesColumn(c));
  }

  lemma UnpivotSound(obs: seq<Observation>, x: Observation)
    requires UniqueCells(obs) && x in Unpivot(Pivot(obs))
    ensures x in obs
  {
    UnpivotMember(Pivot(obs), x);
    UnpivotCell(obs, x.sample, x.pos);
    var o :| o in obs && o.sample == x.sample && o.pos == x.pos;
    assert x == o;
  }

  /** Re-melting the wide table recovers exactly the observations. */
  lemma UnpivotPivot(obs: seq<Observation>)
    requires UniqueCells(obs)
    ensures Unpivot(Pivot(obs)) == set o | o in obs
  {
    forall o | o in obs
      ensures o in Unpivot(Pivot(obs))
    {
      PivotCovers(obs, o);
    }
    forall x | x in Unpivot(Pivot(obs))
      ensures x in obs
    {
      UnpivotSound(obs, x);
    }
  }

  lemma {:induction false} SuffixImageSize(ps: set<string>, suffix: string)
    ensures |set p | p in ps :: p + suffix| == |ps|
    decreases |ps|
  {
    if ps != {} {
      var x :| x in ps;
      var rest := ps - {x};
      SuffixImageSize(rest, suffix);
      var img := set p | p in ps :: p + suffix;
      var imgRest := set p | p in rest :: p + suffix;
      assert img == imgRest + {x + suffix};
      forall p | p in rest
        ensures p + suffix != x + suffix
      {
        assert p != x;
        assert p == (p + suffix)[..|p|] && x == (x + suffix)[..|x|];
      }
    }
  }

  /** Every position contributes exactly two columns. */
  lemma ColumnsForSize(ps: set<string>)
    ensures |ColumnsFor(ps)| == 2 * |ps|
  {
    var a := set p | p in ps :: AllelesColumn(p);
    var d := set p | p in ps :: DosageColumn(p);
    SuffixImageSize(ps, "_alleles");
    SuffixImageSize(ps, "_dosage");
    assert a == set p | p in ps :: p + "_alleles";
    assert d == set p | p in ps :: p + "_dosage";
    forall c | c in a && c in d
      ensures false
    {
      var p :| p in ps && c == AllelesColumn(p);
      var q :| q in ps && c == DosageColumn(q);
      ColumnNamesDistinct(p, q);
    }
    assert a * d == {};
  }

  /** Every row of the wide table has exactly two columns per position
      that its sample was observed at. */
  lemma PivotGenerated(obs: seq<Observation>)
    requires UniqueCells(obs)
    ensures AllGenerated(Pivot(obs))
  {
    forall s | s in Pivot(obs)
      ensures forall c :: c in Pivot(obs)[s] ==> GeneratedName(c)
    {
      ColumnsForGenerated(PositionsOf(obs, s));
    }
  }

  lemma PivotRowSize(obs: seq<Observation>, s: string)
    requires UniqueCells(obs) && s in Pivot(obs)
    ensures |Pivot(obs)[s]| == 2 * |PositionsOf(obs, s)|
  {
    ColumnsForSize(PositionsOf(obs, s));
  }

  // ---------------------------------------------------------------------
  // get_results
  // ---------------------------------------------------------------------

  /** No two long records share sample and variant id. */
  predicate UniqueEntries(m: seq<LongRecord>) {
    forall i, j :: 0 <= i < j < |m| ==> m[i].sample != m[j].sample || m[i].variantId != m[j].variantId
  }

  /** Every genotype field and every variant id of the records splits. */
  predicate AllParse(m: seq<LongRecord>) {
    forall k :: 0 <= k < |m| ==> ParseGenotypeField(m[k].raw).Some? && ParseVariantId(m[k].variantId).Some?
  }

  /** The position a record's variant id names. */
  function PosOf(rec: LongRecord): string
    requires ParseVariantId(rec.variantId).Some?
  {
    ParseVariantId(rec.variantId).value.pos
  }

  /** No two records share sample and position. */
  predicate DistinctPositions(m: seq<LongRecord>)
    requires AllParse(m)
  {
    forall i, j :: 0 <= i < j < |m| ==> m[i].sample != m[j].sample || PosOf(m[i]) != PosOf(m[j])
  }

  predicate RowsMatchHeader(rows: seq<seq<string>>, headers: seq<string>) {
    forall j :: 0 <= j < |rows| ==> |rows[j]| == |headers|
  }

  function SampleNames(m: seq<LongRecord>): set<string> {
    set x | x in m :: x.sample
  }

  /** Every sample column has a record when there is at least one data
      row, and every record belongs to a sample column. */
  lemma MeltSamples(samples: seq<string>, rows: seq<seq<string>>, idCol: nat)
    requires forall j :: 0 <= j < |rows| ==> idCol < |rows[j]| && VcfColumnCount + |samples| <= |rows[j]|
    requires |rows| > 0
    ensures SampleNames(Melt(samples, rows, idCol)) == set s | s in samples
  {
    var m := Melt(samples, rows, idCol);
    forall s | s in samples
      ensures s in SampleNames(m)
    {
      var i :| 0 <= i < |samples| && samples[i] == s;
      assert m[MeltIndex(i, 0, |rows|)] in m;
    }
    forall s | s in SampleNames(m)
      ensures s in samples
    {
      var x :| x in m && x.sample == s;
      var k :| 0 <= k < |m| && m[k] == x;
      assert samples[SampleOf(k, |rows|)] == s;
    }
  }

  /** Annotating keeps the sample of every record. */
  lemma ObservedSamples(melted: seq<LongRecord>, obs: seq<Observation>)
    requires |obs| == |melted|
    requires forall k :: 0 <= k < |melted| ==> obs[k].sample == melted[k].sample
    ensures SamplesOf(obs) == SampleNames(melted)
  {
    forall s | s in SampleNames(melted)
      ensures s in SamplesOf(obs)
    {
      var x :| x in melted && x.sample == s;
      var k :| 0 <= k < |melted| && melted[k] == x;
      assert obs[k] in obs;
    }
    forall s | s in SamplesOf(obs)
      ensures s in SampleNames(melted)
    {
      var o :| o in obs && o.sample == s;
      var k :| 0 <= k < |obs| && obs[k] == o;
      assert melted[k] in melted;
    }
  }

  /** The wide table holds what the long record says: its genotype field
      and variant id parse, and the record's sample row carries the call's
      bucket and the dosage under the variant position's two columns. */
  predicate Recorded(wide: Wide, rec: LongRecord) {
    match (ParseGenotypeField(rec.raw), ParseVariantId(rec.variantId))
    case (Some(f), Some(v)) =>
      && rec.sample in wide
      && AllelesColumn(v.pos) in wide[rec.sample] && wide[rec.sample][AllelesColumn(v.pos)] == Classify(f.call)
      && DosageColumn(v.pos) in wide[rec.sample] && wide[rec.sample][DosageColumn(v.pos)] == f.dosage
    case _ => false
  }

  lemma PivotRecorded(melted: seq<LongRecord>, annotated: seq<Annotated>, obs: seq<Observation>, wide: Wide)
    requires Annotate(melted) == Success(annotated)
    requires obs == MapSeq(annotated, Observe)
    requires UniqueCells(obs) && wide == Pivot(obs)
    ensures forall k :: 0 <= k < |melted| ==> Recorded(wide, melted[k])
  {
    forall k | 0 <= k < |melted|
      ensures Recorded(wide, melted[k])
    {
      assert obs[k] in obs;
      assert obs[k] == Observe(annotated[k]);
    }
  }

  /** The observations of the annotated records share sample and position
      exactly when the records do. */
  lemma ObservedCells(melted: seq<LongRecord>, annotated: seq<Annotated>, obs: seq<Observation>)
    requires Annotate(melted) == Success(annotated)
    requires obs == MapSeq(annotated, Observe)
    ensures AllParse(melted)
    ensures UniqueCells(obs) <==> DistinctPositions(melted)
  {
    forall k | 0 <= k < |melted|
      ensures obs[k].sample == melted[k].sample && obs[k].pos == PosOf(melted[k])
    {
      assert obs[k] == Observe(annotated[k]);
    }
  }

  /** The variant positions of the records of sample `s`. */
  function RecordPositions(melted: seq<LongRecord>, s: string): set<string>
    requires AllParse(melted)
  {
    set k | 0 <= k < |melted| && melted[k].sample == s :: PosOf(melted[k])
  }

  /** Observations that agree with the records on sample and position,
      one for one, give each sample the positions of its records. */
  lemma PositionsAgree(melted: seq<LongRecord>, obs: seq<Observation>, s: string)
    requires AllParse(melted) && |obs| == |melted|
    requires forall k :: 0 <= k < |melted| ==> obs[k].sample == melted[k].sample && obs[k].pos == PosOf(melted[k])
    ensures PositionsOf(obs, s) == RecordPositions(melted, s)
  {
    forall x | x in PositionsOf(obs, s)
      ensures x in RecordPositions(melted, s)
    {
      var o :| o in obs && o.sample == s && o.pos == x;
      var k :| 0 <= k < |obs| && obs[k] == o;
    }
    forall x | x in RecordPositions(melted, s)
      ensures x in PositionsOf(obs, s)
    {
      var k :| 0 <= k < |melted| && melted[k].sample == s && PosOf(melted[k]) == x;
      assert obs[k] in obs;
    }
  }

  /** A sample's observations sit at the positions of its records. */
  lemma ObservedPositions(melted: seq<LongRecord>, annotated: seq<Annotated>, obs: seq<Observation>, s: string)
    requires Annotate(melted) == Success(annotated)
    requires obs == MapSeq(annotated, Observe)
    ensures AllParse(melted)
    ensures PositionsOf(obs, s) == RecordPositions(melted, s)
  {
    ObservedCells(melted, annotated, obs);
    forall k | 0 <= k < |melted|
      ensures obs[k].sample == melted[k].sample && obs[k].pos == PosOf(melted[k])
    {
      assert obs[k] == Observe(annotated[k]);
    }
    PositionsAgree(melted, obs, s);
  }

  /** The steps after the melt: refuse duplicate entries, annotate, refuse
      duplicate positions, pivot.  It succeeds exactly when all three checks
      pass, and then every sample with a record gets a row and every record
      is in the table; otherwise the error names the first check that
      fails. */
  function Widen(melted: seq<LongRecord>): (r: Result<Wide, LoadError>)
    ensures r.Success? <==> UniqueEntries(melted) && AllParse(melted) && DistinctPositions(melted)
    ensures r == Failure(DuplicateEntry) <==> !UniqueEntries(melted)
    ensures r == Failure(BadGenotypeField) <==>
              UniqueEntries(melted) && exists k :: 0 <= k < |melted| && ParseGenotypeField(melted[k].raw).None?
    ensures r == Failure(BadVariantId) <==>
              && UniqueEntries(melted)
              && (forall k :: 0 <= k < |melted| ==> ParseGenotypeField(melted[k].raw).Some?)
              && exists k :: 0 <= k < |melted| && ParseVariantId(melted[k].variantId).None?
    ensures r == Failure(DuplicatePosition) <==> UniqueEntries(melted) && AllParse(melted) && !DistinctPositions(melted)
    ensures r.Failure? ==> r.error in {DuplicateEntry, BadGenotypeField, BadVariantId, DuplicatePosition}
    ensures r.Success? ==> r.value.Keys == SampleNames(melted)
    ensures r.Success? ==> forall k :: 0 <= k < |melted| ==> Recorded(r.value, melted[k])
    ensures r.Success? ==> AllGenerated(r.value)
    ensures r.Success? ==> AllParse(melted)
    ensures r.Success? ==> forall s :: s in r.value ==> r.value[s].Keys == ColumnsFor(RecordPositions(melted, s))
  {
    if !UniqueEntries(melted) then Failure(DuplicateEntry)
    else match Annotate(melted)
      case Failure(e) => Failure(e)
      case Success(annotated) =>
        var obs := MapSeq(annotated, Observe);
        ObservedCells(melted, annotated, obs);
        if !UniqueCells(obs) then Failure(DuplicatePosition)
        else
          WidenSound(melted, annotated, obs);
          Success(Pivot(obs))
  }

  lemma WidenSound(melted: seq<LongRecord>, annotated: seq<Annotated>, obs: seq<Observation>)
    requires Annotate(melted) == Success(annotated)
    requires obs == MapSeq(annotated, Observe)
    requires UniqueCells(obs)
    ensures Pivot(obs).Keys == SampleNames(melted)
    ensures forall k :: 0 <= k < |melted| ==> Recorded(Pivot(obs), melted[k])
    ensures AllGenerated(Pivot(obs))
    ensures AllParse(melted)
    ensures forall s :: s in Pivot(obs) ==> Pivot(obs)[s].Keys == ColumnsFor(RecordPositions(melted, s))
  {
    assert forall k :: 0 <= k < |melted| ==> obs[k].sample == melted[k].sample;
    ObservedSamples(melted, obs);
    PivotGenerated(obs);
    PivotRecorded(melted, annotated, obs, Pivot(obs));
    ObservedCells(melted, annotated, obs);
    forall s | s in Pivot(obs)
      ensures Pivot(obs)[s].Keys == ColumnsFor(RecordPositions(melted, s))
    {
      ObservedPositions(melted, annotated, obs, s);
    }
  }

  /** Two sample columns whose names clean to the same text (`S1_x` and
      `S2_x` both give `x`) make the load fail as soon as there is a data
      row: their records for that row share sample and variant id. */
  lemma MeltDuplicateSample(samples: seq<string>, rows: seq<seq<string>>, idCol: nat, i: nat, j: nat)
    requires forall j :: 0 <= j < |rows| ==> idCol < |rows[j]| && VcfColumnCount + |samples| <= |rows[j]|
    requires i < j < |samples| && samples[i] == samples[j] && |rows| > 0
    ensures !UniqueEntries(Melt(samples, rows, idCol))
    ensures Widen(Melt(samples, rows, idCol)) == Failure(DuplicateEntry)
  {
    var m := Melt(samples, rows, idCol);
    var a := MeltIndex(i, 0, |rows|);
    var b := MeltIndex(j, 0, |rows|);
    MeltIndexBounds(i, 0, j, |rows|);
    assert a < b && m[a].sample == m[b].sample && m[a].variantId == m[b].variantId;
  }

  /** A wide table that holds every melted record holds the field of
      every (sample column, data row) pair. */
  lemma MeltRecorded(samples: seq<string>, rows: seq<seq<string>>, idCol: nat, wide: Wide)
    requires forall j :: 0 <= j < |rows| ==> idCol < |rows[j]| && VcfColumnCount + |samples| <= |rows[j]|
    requires forall k :: 0 <= k < |Melt(samples, rows, idCol)| ==> Recorded(wide, Melt(samples, rows, idCol)[k])
    ensures forall i, j :: 0 <= i < |samples| && 0 <= j < |rows| ==>
              Recorded(wide, LongRecord(samples[i], rows[j][idCol], rows[j][VcfColumnCount + i]))
  {
    var m := Melt(samples, rows, idCol);
    forall i, j | 0 <= i < |samples| && 0 <= j < |rows|
      ensures Recorded(wide, LongRecord(samples[i], rows[j][idCol], rows[j][VcfColumnCount + i]))
    {
      assert m[MeltIndex(i, j, |rows|)] == LongRecord(samples[i], rows[j][idCol], rows[j][VcfColumnCount + i]);
    }
  }

  /** The checks on the shape of the table that come before the melt: every
      data row as wide as the header, an `ID` column and at least one
      sample column. */
  predicate TableShapeOk(headers: seq<string>, rows: seq<seq<string>>) {
    RowsMatchHeader(rows, headers) && IndexOf(headers, "ID").Some? && |SampleColumns(headers)| > 0
  }

  /** The melt of a table that passes those checks. */
  function MeltTable(headers: seq<string>, rows: seq<seq<string>>): seq<LongRecord>
    requires TableShapeOk(headers, rows)
  {
    var samples := SampleColumns(headers);
    var idCol := IndexOf(headers, "ID").value;
    assert forall j :: 0 <= j < |rows| ==> idCol < |rows[j]| && VcfColumnCount + |samples| <= |rows[j]|;
    Melt(samples, rows, idCol)
  }

  /** The wide table holds the field of every (sample column, data row)
      pair under the row's variant position. */
  predicate TableRecorded(wide: Wide, headers: seq<string>, rows: seq<seq<string>>)
    requires TableShapeOk(headers, rows)
  {
    forall i, j :: 0 <= i < |SampleColumns(headers)| && 0 <= j < |rows| ==>
      Recorded(wide, LongRecord(SampleColumns(headers)[i], rows[j][IndexOf(headers, "ID").value],
                                rows[j][VcfColumnCount + i]))
  }

  /** The variant positions of the data rows' ids that parse. */
  function RowPositions(rows: seq<seq<string>>, idCol: nat): set<string>
    requires forall j :: 0 <= j < |rows| ==> idCol < |rows[j]|
  {
    set j | 0 <= j < |rows| && ParseVariantId(rows[j][idCol]).Some? :: ParseVariantId(rows[j][idCol]).value.pos
  }

  /** The variant positions of the ids in the table's `ID` column. */
  function TablePositions(headers: seq<string>, rows: seq<seq<string>>): set<string>
    requires TableShapeOk(headers, rows)
  {
    var idCol := IndexOf(headers, "ID").value;
    assert forall j :: 0 <= j < |rows| ==> idCol < |rows[j]|;
    RowPositions(rows, idCol)
  }

  /** The record at index `k` of the melt. */
  lemma MeltAt(samples: seq<string>, rows: seq<seq<string>>, idCol: nat, k: nat)
    requires forall j :: 0 <= j < |rows| ==> idCol < |rows[j]| && VcfColumnCount + |samples| <= |rows[j]|
    requires k < |Melt(samples, rows, idCol)|
    ensures SampleOf(k, |rows|) < |samples| && RowOf(k, |rows|) < |rows|
    ensures Melt(samples, rows, idCol)[k].variantId == rows[RowOf(k, |rows|)][idCol]
  {
  }

  /** A record of the melt sits at the position of its data row's id. */
  lemma MeltPositionsSound(samples: seq<string>, rows: seq<seq<string>>, idCol: nat, s: string, x: string)
    requires forall j :: 0 <= j < |rows| ==> idCol < |rows[j]| && VcfColumnCount + |samples| <= |rows[j]|
    requires AllParse(Melt(samples, rows, idCol))
    requires x in RecordPositions(Melt(samples, rows, idCol), s)
    ensures x in RowPositions(rows, idCol)
  {
    var m := Melt(samples, rows, idCol);
    var k :| 0 <= k < |m| && m[k].sample == s && PosOf(m[k]) == x;
    MeltAt(samples, rows, idCol, k);
    var j := RowOf(k, |rows|);
    assert ParseVariantId(rows[j][idCol]).Some?;
  }

  /** Every sample column has a record at the position of every data row. */
  lemma MeltPositionsComplete(samples: seq<string>, rows: seq<seq<string>>, idCol: nat, s: string, x: string)
    requires forall j :: 0 <= j < |rows| ==> idCol < |rows[j]| && VcfColumnCount + |samples| <= |rows[j]|
    requires s in samples
    requires AllParse(Melt(samples, rows, idCol))
    requires x in RowPositions(rows, idCol)
    ensures x in RecordPositions(Melt(samples, rows, idCol), s)
  {
    var m := Melt(samples, rows, idCol);
    var j :| 0 <= j < |rows| && ParseVariantId(rows[j][idCol]).Some? && ParseVariantId(rows[j][idCol]).value.pos == x;
    var i :| 0 <= i < |samples| && samples[i] == s;
    var k := MeltIndex(i, j, |rows|);
    assert m[k] == LongRecord(samples[i], rows[j][idCol], rows[j][VcfColumnCount + i]);
    assert PosOf(m[k]) == x;
  }

  /** The melt holds every (sample column, data row) pair, so every sample
      column has a record at the position of every data row, and at no
      other. */
  lemma MeltPositions(samples: seq<string>, rows: seq<seq<string>>, idCol: nat, s: string)
    requires forall j :: 0 <= j < |rows| ==> idCol < |rows[j]| && VcfColumnCount + |samples| <= |rows[j]|
    requires s in samples
    requires AllParse(Melt(samples, rows, idCol))
    ensures RecordPositions(Melt(samples, rows, idCol), s) == RowPositions(rows, idCol)
  {
    forall x | x in RecordPositions(Melt(samples, rows, idCol), s)
      ensures x in RowPositions(rows, idCol)
    {
      MeltPositionsSound(samples, rows, idCol, s, x);
    }
    forall x | x in RowPositions(rows, idCol)
      ensures x in RecordPositions(Melt(samples, rows, idCol), s)
    {
      MeltPositionsComplete(samples, rows, idCol, s, x);
    }
  }

  /** Every row of the widened table has the two columns of every data
      row's variant position, and no other column. */
  lemma MeltTableColumns(headers: seq<string>, rows: seq<seq<string>>, wide: Wide)
    requires |rows| > 0 && TableShapeOk(headers, rows)
    requires Widen(MeltTable(headers, rows)) == Success(wide)
    ensures forall s :: s in wide ==> wide[s].Keys == ColumnsFor(TablePositions(headers, rows))
  {
    var samples := SampleColumns(headers);
    var idCol := IndexOf(headers, "ID").value;
    assert forall j :: 0 <= j < |rows| ==> idCol < |rows[j]| && VcfColumnCount + |samples| <= |rows[j]|;
    MeltSamples(samples, rows, idCol);
    forall s | s in wide
      ensures wide[s].Keys == ColumnsFor(TablePositions(headers, rows))
    {
      MeltPositions(samples, rows, idCol, s);
    }
  }

  /** What a widened table says about the header and the data rows it
      came from. */
  lemma TableSound(headers: seq<string>, rows: seq<seq<string>>, wide: Wide)
    requires |rows| > 0 && TableShapeOk(headers, rows)
    requires Widen(MeltTable(headers, rows)) == Success(wide)
    ensures wide.Keys == set s | s in SampleColumns(headers)
    ensures TableRecorded(wide, headers, rows)
    ensures AllGenerated(wide)
    ensures forall s :: s in wide ==> wide[s].Keys == ColumnsFor(TablePositions(headers, rows))
  {
    var samples := SampleColumns(headers);
    var idCol := IndexOf(headers, "ID").value;
    assert forall j :: 0 <= j < |rows| ==> idCol < |rows[j]| && VcfColumnCount + |samples| <= |rows[j]|;
    MeltSamples(samples, rows, idCol);
    MeltRecorded(samples, rows, idCol, wide);
    MeltTableColumns(headers, rows, wide);
  }

  /** Everything after reading the file: the header fields and the data
      rows to the wide table.  The shape checks fail in order with their
      own errors; past them, the table fails exactly when `Widen` does, and
      a successful table has one row per sample column and records every
      field. */
  function FromTable(headers: seq<string>, rows: seq<seq<string>>): (r: Result<Wide, LoadError>)
    requires |rows| > 0
    ensures r == Failure(FieldCountMismatch) <==> !RowsMatchHeader(rows, headers)
    ensures r == Failure(NoIdColumn) <==> RowsMatchHeader(rows, headers) && IndexOf(headers, "ID").None?
    ensures r == Failure(NoSamples) <==>
              RowsMatchHeader(rows, headers) && IndexOf(headers, "ID").Some? && |SampleColumns(headers)| == 0
    ensures r.Success? <==> TableShapeOk(headers, rows) && Widen(MeltTable(headers, rows)).Success?
    ensures TableShapeOk(headers, rows) && r.Failure? ==> r == Widen(MeltTable(headers, rows))
    ensures r.Failure? ==> r.error != NoData && r.error != NoHeader
    ensures r.Success? ==> r.value.Keys == set s | s in SampleColumns(headers)
    ensures r.Success? ==> TableRecorded(r.value, headers, rows)
    ensures r.Success? ==> AllGenerated(r.value)
    ensures r.Success? ==> TableShapeOk(headers, rows)
    ensures r.Success? ==> forall s :: s in r.value ==> r.value[s].Keys == ColumnsFor(TablePositions(headers, rows))
  {
    if !RowsMatchHeader(rows, headers) then Failure(FieldCountMismatch)
    else match IndexOf(headers, "ID")
      case None => Failure(NoIdColumn)
      case Some(idCol) =>
        if |SampleColumns(headers)| == 0 then Failure(NoSamples)
        else
          var r := Widen(MeltTable(headers, rows));
          if r.Success? then
            TableSound(headers, rows, r.value);
            r
          else r
  }

  /** `get_results(filename)` applied to the lines of the file.  It fails
      with `NoData` exactly when no line is a data line, with `NoHeader`
      exactly when there are data lines but no `#` line, and otherwise as
      the table of the cleaned header and the data rows does; a successful
      load has one row per sample column of the cleaned header and records
      every field of every data row. */
  function GetResults(lines: seq<string>): (r: Result<Wide, LoadError>)
    ensures r == Failure(NoData) <==> |DataRows(lines)| == 0
    ensures r == Failure(NoData) <==> forall i :: 0 <= i < |lines| ==> !IsDataLine(lines[i])
    ensures r == Failure(NoHeader) <==> |DataRows(lines)| > 0 && Header(lines).None?
    ensures r.Success? <==>
              && |DataRows(lines)| > 0 && Header(lines).Some?
              && TableShapeOk(HeaderFields(lines), DataRows(lines))
              && Widen(MeltTable(HeaderFields(lines), DataRows(lines))).Success?
    ensures |DataRows(lines)| > 0 && Header(lines).Some? ==> r == FromTable(HeaderFields(lines), DataRows(lines))
    ensures r.Success? ==> r.value.Keys == set s | s in SampleColumns(HeaderFields(lines))
    ensures r.Success? ==> TableRecorded(r.value, HeaderFields(lines), DataRows(lines))
    ensures r.Success? ==> AllGenerated(r.value)
    ensures r.Success? ==> TableShapeOk(HeaderFields(lines), DataRows(lines))
    ensures r.Success? ==> forall s :: s in r.value ==>
              r.value[s].Keys == ColumnsFor(TablePositions(HeaderFields(lines), DataRows(lines)))
  {
    var rows := DataRows(lines);
    DataRowsEmpty(lines);
    if |rows| == 0 then Failure(NoData)
    else if Header(lines).None? then Failure(NoHeader)
    else FromTable(HeaderFields(lines), rows)
  }
}
