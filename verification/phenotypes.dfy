/** `scrape_redcap.py`: keep the baseline REDCap records, match each to the
    first line of the PLINK `.fam` manifest whose individual id contains
    the record's `idno`, key the matches by `idno`, and write three
    space-separated tables sorted by family id.

    The exported records and the manifest lines are inputs; the three
    tables are the outputs, one row per line as a sequence of fields. */
module Phenotypes {
  import opened Results
  import opened Strings
  import opened Sorting

  /** One record as `export_records` returns it: every field is text. */
  datatype ExportedRecord = ExportedRecord(idno: string, sex: string, age: string, education: string, vriiTotalRaw: string)

  datatype PhenoError =
    | ShortManifestRow(index: nat)  // the scan reached a manifest line with fewer than two fields: `row[1]` fails

  // ---------------------------------------------------------------------
  // baseline records
  // ---------------------------------------------------------------------

  predicate IsBaseline(rec: ExportedRecord) {
    EndsWith(rec.idno, "--1")
  }

  /** The record with its `idno` cut at the first `--`. */
  function Normalize(rec: ExportedRecord): (r: ExportedRecord)
    ensures r.idno <= rec.idno && !Contains(r.idno, "--")
    ensures forall k :: 0 <= k < |r.idno| ==> !OccursAt(rec.idno, "--", k)
    ensures |r.idno| == |rec.idno| || OccursAt(rec.idno, "--", |r.idno|)
    ensures r.sex == rec.sex && r.age == rec.age && r.education == rec.education && r.vriiTotalRaw == rec.vriiTotalRaw
  {
    BeforeFirstHasNoSeparator(rec.idno, "--");
    rec.(idno := BeforeFirst(rec.idno, "--"))
  }

  /** The list comprehension over the exported records: the records whose
      `idno` ends with `--1`, in their order, normalised. */
  function SelectBaseline(recs: seq<ExportedRecord>): (r: seq<ExportedRecord>)
    ensures |r| <= |recs|
    ensures forall i :: 0 <= i < |r| ==> !Contains(r[i].idno, "--")
  {
    if |recs| == 0 then []
    else
      var last := recs[|recs| - 1];
      SelectBaseline(recs[..|recs| - 1]) + (if IsBaseline(last) then [Normalize(last)] else [])
  }

  lemma {:induction false} SelectBaselineAppend(a: seq<ExportedRecord>, b: seq<ExportedRecord>)
    ensures SelectBaseline(a + b) == SelectBaseline(a) + SelectBaseline(b)
    decreases |b|
  {
    if |b| == 0 {
      assert a + b == a;
    } else {
      assert (a + b)[..|a + b| - 1] == a + b[..|b| - 1];
      SelectBaselineAppend(a, b[..|b| - 1]);
    }
  }

  /** A kept record is the normalised form of a baseline record, and every
      baseline record is kept. */
  lemma {:induction false} SelectBaselineMembers(recs: seq<ExportedRecord>)
    ensures forall rec :: rec in recs && IsBaseline(rec) ==> Normalize(rec) in SelectBaseline(recs)
    ensures forall x :: x in SelectBaseline(recs) ==> exists rec :: rec in recs && IsBaseline(rec) && x == Normalize(rec)
    decreases |recs|
  {
    if |recs| > 0 {
      var init := recs[..|recs| - 1];
      var last := recs[|recs| - 1];
      SelectBaselineMembers(init);
      assert recs == init + [last];
      forall x | x in SelectBaseline(recs)
        ensures exists rec :: rec in recs && IsBaseline(rec) && x == Normalize(rec)
      {
        if x in SelectBaseline(init) {
          var rec :| rec in init && IsBaseline(rec) && x == Normalize(rec);
          assert rec in recs;
        } else {
          assert last in recs;
        }
      }
    }
  }

  /** The ending `--1` is what selects: `--2` is dropped, and only the text
      before the first `--` is kept. */
  lemma SelectBaselineExample()
    ensures SelectBaseline([ExportedRecord("123--1", "1", "70", "12", "40"),
                            ExportedRecord("124--2", "2", "71", "10", "35")])
            == [ExportedRecord("123", "1", "70", "12", "40")]
  {
    var a := ExportedRecord("123--1", "1", "70", "12", "40");
    var b := ExportedRecord("124--2", "2", "71", "10", "35");
    assert [a, b][..1] == [a];
    assert IsBaseline(a) && !IsBaseline(b);
    assert "123--1" == "123" + "--" + "1";
    BeforeFirstOfJoin("123", "--", "1");
  }

  // ---------------------------------------------------------------------
  // the manifest
  // ---------------------------------------------------------------------

  /** `line.strip().split(' ')`: surrounding whitespace of any kind goes,
      then every single space separates two fields. */
  function ManifestRow(line: string): (row: seq<string>)
    ensures |row| > 0
    ensures forall i :: 0 <= i < |row| ==> ' ' !in row[i]
    ensures Join(row, ' ') == Strip(line, Whitespace)
  {
    Split(Strip(line, Whitespace), ' ')
  }

  /** Two spaces in a row give an empty field: the split is on the single
      space character, not on runs of whitespace. */
  lemma ManifestRowDoubleSpace()
    ensures ManifestRow("a  b\n") == ["a", "", "b"]
  {
    var s := "a  b\n";
    assert StrippedAt(s, Whitespace, "a  b", 0);
    StrippedUnique(s, Whitespace, Strip(s, Whitespace), "a  b");
    var parts := ["a", "", "b"];
    assert Join(parts, ' ') == "a  b" by {
      assert parts[1..] == ["", "b"];
      assert parts[1..][1..] == ["b"];
    }
    SplitJoin(parts, ' ');
  }

  // ---------------------------------------------------------------------
  // the matching loop
  // ---------------------------------------------------------------------

  /** The inner loop over the manifest rows from `from` on: the first row
      whose second field contains `idno`.  A row with fewer than two fields
      met before any match stops the script. */
  function FirstMatch(idno: string, data: seq<seq<string>>, from: nat): (r: Result<Option<nat>, PhenoError>)
    ensures r.Success? && r.value.Some? ==>
              && from <= r.value.value < |data| && |data[r.value.value]| >= 2
              && Contains(data[r.value.value][1], idno)
    ensures r.Success? ==> forall j :: from <= j < |data| && (r.value.None? || j < r.value.value) ==>
              |data[j]| >= 2 && !Contains(data[j][1], idno)
    ensures r.Failure? ==> from <= r.error.index < |data| && |data[r.error.index]| < 2
    ensures r.Failure? ==> forall j :: from <= j < r.error.index ==> |data[j]| >= 2 && !Contains(data[j][1], idno)
    decreases |data| - from
  {
    if from >= |data| then Success(None)
    else if |data[from]| < 2 then Failure(ShortManifestRow(from))
    else if Contains(data[from][1], idno) then Success(Some(from))
    else FirstMatch(idno, data, from + 1)
  }

  /** What `final_records[idno]` holds: the record's four fields and the
      matched row's family and individual ids. */
  datatype Entry = Entry(sex: string, age: string, education: string, vriiTotalRaw: string, fid: string, iid: string)

  function EntryOf(rec: ExportedRecord, row: seq<string>): Entry
    requires |row| >= 2
  {
    Entry(rec.sex, rec.age, rec.education, rec.vriiTotalRaw, row[0], row[1])
  }

  /** A Python dict: its items in insertion order. */
  type Dict = seq<(string, Entry)>

  function Keys(d: Dict): (ks: seq<string>)
    ensures |ks| == |d| && forall i :: 0 <= i < |d| ==> ks[i] == d[i].0
  {
    if |d| == 0 then [] else Keys(d[..|d| - 1]) + [d[|d| - 1].0]
  }

  predicate DistinctKeys(d: Dict) {
    forall i, j :: 0 <= i < j < |d| ==> d[i].0 != d[j].0
  }

  function Lookup(d: Dict, k: string): (r: Option<Entry>)
    ensures r.Some? <==> k in Keys(d)
    ensures r.Some? ==> (k, r.value) in d
  {
    if |d| == 0 then None
    else if d[0].0 == k then Some(d[0].1)
    else
      assert Keys(d) == [d[0].0] + Keys(d[1..]);
      Lookup(d[1..], k)
  }

  lemma LookupCons(x: (string, Entry), d: Dict, k: string)
    ensures Lookup([x] + d, k) == if x.0 == k then Some(x.1) else Lookup(d, k)
  {
    assert ([x] + d)[1..] == d;
  }

  lemma KeysCons(x: (string, Entry), d: Dict)
    ensures Keys([x] + d) == [x.0] + Keys(d)
  {
  }

  /** `d[k] = v`: an existing key keeps its place and takes the new value,
      a new key goes at the end. */
  function Put(d: Dict, k: string, v: Entry): (r: Dict)
    ensures Keys(r) == if k in Keys(d) then Keys(d) else Keys(d) + [k]
  {
    if |d| == 0 then [(k, v)]
    else if d[0].0 == k then
      KeysCons(d[0], d[1..]);
      KeysCons((k, v), d[1..]);
      assert d == [d[0]] + d[1..];
      [(k, v)] + d[1..]
    else
      var rest := Put(d[1..], k, v);
      assert d == [d[0]] + d[1..];
      KeysCons(d[0], d[1..]);
      KeysCons(d[0], rest);
      [d[0]] + rest
  }

  /** After `d[k] = v`, `k` maps to `v` and every other key to what it
      mapped to before. */
  lemma {:induction false} PutLookup(d: Dict, k: string, v: Entry)
    ensures Lookup(Put(d, k, v), k) == Some(v)
    ensures forall k' :: k' != k ==> Lookup(Put(d, k, v), k') == Lookup(d, k')
    decreases |d|
  {
    if |d| == 0 {
      LookupCons((k, v), [], k);
      forall k' | k' != k
        ensures Lookup(Put(d, k, v), k') == Lookup(d, k')
      {
        LookupCons((k, v), [], k');
      }
    } else {
      assert d == [d[0]] + d[1..];
      if d[0].0 == k {
        LookupCons((k, v), d[1..], k);
        forall k' | k' != k
          ensures Lookup(Put(d, k, v), k') == Lookup(d, k')
        {
          LookupCons((k, v), d[1..], k');
          LookupCons(d[0], d[1..], k');
        }
      } else {
        var rest := Put(d[1..], k, v);
        PutLookup(d[1..], k, v);
        LookupCons(d[0], rest, k);
        forall k' | k' != k
          ensures Lookup(Put(d, k, v), k') == Lookup(d, k')
        {
          LookupCons(d[0], rest, k');
          LookupCons(d[0], d[1..], k');
        }
      }
    }
  }

  /** Keys stay distinct under `d[k] = v`. */
  lemma PutDistinct(d: Dict, k: string, v: Entry)
    requires DistinctKeys(d)
    ensures DistinctKeys(Put(d, k, v))
  {
    var r := Put(d, k, v);
    assert forall i :: 0 <= i < |r| ==> r[i].0 == Keys(r)[i];
    assert forall i, j :: 0 <= i < j < |d| ==> Keys(d)[i] != Keys(d)[j];
  }

  /** The index of the last record with this `idno`. */
  function LastWith(recs: seq<ExportedRecord>, k: string): (r: Option<nat>)
    ensures r.Some? ==> r.value < |recs| && recs[r.value].idno == k
                        && forall i :: r.value < i < |recs| ==> recs[i].idno != k
    ensures r.None? ==> forall i :: 0 <= i < |recs| ==> recs[i].idno != k
  {
    if |recs| == 0 then None
    else if recs[|recs| - 1].idno == k then Some(|recs| - 1)
    else LastWith(recs[..|recs| - 1], k)
  }

  /** The index of the first record with this `idno`. */
  function FirstWith(recs: seq<ExportedRecord>, k: string): (r: Option<nat>)
    ensures r.Some? ==> r.value < |recs| && recs[r.value].idno == k
                        && forall i :: 0 <= i < r.value ==> recs[i].idno != k
    ensures r.None? ==> forall i :: 0 <= i < |recs| ==> recs[i].idno != k
  {
    if |recs| == 0 then None
    else match FirstWith(recs[..|recs| - 1], k)
      case Some(i) => Some(i)
      case None => if recs[|recs| - 1].idno == k then Some(|recs| - 1) else None
  }

  /** Every key in `ks` is the `idno` of some record, and the keys come in
      the order of the first record with each. */
  predicate FirstOccurrenceOrder(ks: seq<string>, recs: seq<ExportedRecord>) {
    && (forall p :: 0 <= p < |ks| ==> FirstWith(recs, ks[p]).Some?)
    && forall p, q :: 0 <= p < q < |ks| ==>
         FirstWith(recs, ks[p]).Some? && FirstWith(recs, ks[q]).Some? &&
         FirstWith(recs, ks[p]).value < FirstWith(recs, ks[q]).value
  }

  /** The entry the loop leaves under `k`: built from the LAST record with
      that `idno` and the first manifest row that matches it, or nothing
      when no record has it or no row matches. */
  function Expected(recs: seq<ExportedRecord>, data: seq<seq<string>>, k: string): Option<Entry> {
    var last := LastWith(recs, k);
    var m := FirstMatch(k, data, 0);
    if last.Some? && m.Success? && m.value.Some? then Some(EntryOf(recs[last.value], data[m.value.value]))
    else None
  }

  predicate ScanSucceeds(rec: ExportedRecord, data: seq<seq<string>>) {
    FirstMatch(rec.idno, data, 0).Success?
  }

  /** How one more record changes what the loop leaves. */
  lemma MatchAllStep(init: seq<ExportedRecord>, rec: ExportedRecord, data: seq<seq<string>>)
    ensures forall k :: k != rec.idno ==> Expected(init + [rec], data, k) == Expected(init, data, k)
    ensures var m := FirstMatch(rec.idno, data, 0);
            Expected(init + [rec], data, rec.idno) ==
              if m.Success? && m.value.Some? then Some(EntryOf(rec, data[m.value.value])) else None
  {
    var recs := init + [rec];
    assert recs[..|recs| - 1] == init;
  }

  /** The dictionary after one more record, given the one before. */
  lemma MatchAllLookupStep(init: seq<ExportedRecord>, rec: ExportedRecord, data: seq<seq<string>>, d: Dict, d': Dict)
    requires forall k :: Lookup(d, k) == Expected(init, data, k)
    requires DistinctKeys(d)
    requires ScanSucceeds(rec, data)
    requires var m := FirstMatch(rec.idno, data, 0).value;
             d' == if m.Some? then Put(d, rec.idno, EntryOf(rec, data[m.value])) else d
    ensures forall k :: Lookup(d', k) == Expected(init + [rec], data, k)
    ensures DistinctKeys(d')
  {
    MatchAllStep(init, rec, data);
    var m := FirstMatch(rec.idno, data, 0).value;
    if m.Some? {
      PutLookup(d, rec.idno, EntryOf(rec, data[m.value]));
      PutDistinct(d, rec.idno, EntryOf(rec, data[m.value]));
    }
  }

  /** A record already seen keeps its first index when one more record
      follows. */
  lemma FirstWithSnoc(init: seq<ExportedRecord>, rec: ExportedRecord, k: string)
    requires FirstWith(init, k).Some?
    ensures FirstWith(init + [rec], k) == FirstWith(init, k)
  {
    assert (init + [rec])[..|init|] == init;
  }

  /** One more record leaves the order of the keys already seen intact. */
  lemma OrderSnoc(ks: seq<string>, init: seq<ExportedRecord>, rec: ExportedRecord)
    requires FirstOccurrenceOrder(ks, init)
    ensures FirstOccurrenceOrder(ks, init + [rec])
  {
    forall p | 0 <= p < |ks|
      ensures FirstWith(init + [rec], ks[p]) == FirstWith(init, ks[p])
    {
      FirstWithSnoc(init, rec, ks[p]);
    }
  }

  /** A record whose `idno` no earlier record has adds its key last. */
  lemma OrderAppend(ks: seq<string>, init: seq<ExportedRecord>, rec: ExportedRecord)
    requires FirstOccurrenceOrder(ks, init)
    requires FirstWith(init, rec.idno).None?
    ensures FirstOccurrenceOrder(ks + [rec.idno], init + [rec])
  {
    var recs := init + [rec];
    OrderSnoc(ks, init, rec);
    assert FirstWith(recs, rec.idno) == Some(|init|) by {
      assert recs[..|recs| - 1] == init;
    }
    var ks' := ks + [rec.idno];
    assert forall p :: 0 <= p < |ks| ==> ks'[p] == ks[p];
  }

  /** The key order after one more record, given the order before. */
  lemma MatchAllOrderStep(init: seq<ExportedRecord>, rec: ExportedRecord, data: seq<seq<string>>, d: Dict, d': Dict)
    requires forall k :: Lookup(d, k) == Expected(init, data, k)
    requires FirstOccurrenceOrder(Keys(d), init)
    requires ScanSucceeds(rec, data)
    requires var m := FirstMatch(rec.idno, data, 0).value;
             d' == if m.Some? then Put(d, rec.idno, EntryOf(rec, data[m.value])) else d
    ensures FirstOccurrenceOrder(Keys(d'), init + [rec])
  {
    var m := FirstMatch(rec.idno, data, 0).value;
    if m.Some? && rec.idno !in Keys(d) {
      NewKeyUnseen(init, rec, data, d);
      OrderAppend(Keys(d), init, rec);
    } else {
      OrderSnoc(Keys(d), init, rec);
    }
  }

  /** A record whose `idno` matches a row but is not yet a key is the
      first record with that `idno`. */
  lemma NewKeyUnseen(init: seq<ExportedRecord>, rec: ExportedRecord, data: seq<seq<string>>, d: Dict)
    requires forall k :: Lookup(d, k) == Expected(init, data, k)
    requires FirstMatch(rec.idno, data, 0).Success? && FirstMatch(rec.idno, data, 0).value.Some?
    requires rec.idno !in Keys(d)
    ensures FirstWith(init, rec.idno).None?
  {
    assert Expected(init, data, rec.idno).None?;
    assert LastWith(init, rec.idno).None?;
  }

  /** Some record's scan fails with `e`, and every record before it scans
      without failing. */
  predicate FailsFirstAt(recs: seq<ExportedRecord>, data: seq<seq<string>>, e: PhenoError) {
    exists i :: 0 <= i < |recs| && FirstMatch(recs[i].idno, data, 0) == Failure(e)
                && forall j :: 0 <= j < i ==> ScanSucceeds(recs[j], data)
  }

  /** A failure among the first records stays the first one. */
  lemma FailsFirstSnoc(init: seq<ExportedRecord>, rec: ExportedRecord, data: seq<seq<string>>, e: PhenoError)
    requires FailsFirstAt(init, data, e)
    ensures FailsFirstAt(init + [rec], data, e)
  {
    var i :| 0 <= i < |init| && FirstMatch(init[i].idno, data, 0) == Failure(e)
             && forall j :: 0 <= j < i ==> ScanSucceeds(init[j], data);
    var recs := init + [rec];
    assert forall j :: 0 <= j <= i ==> recs[j] == init[j];
    assert FirstMatch(recs[i].idno, data, 0) == Failure(e);
  }

  /** After records that all scan, a failing one is the first failure. */
  lemma FailsFirstLast(init: seq<ExportedRecord>, rec: ExportedRecord, data: seq<seq<string>>, e: PhenoError)
    requires forall j :: 0 <= j < |init| ==> ScanSucceeds(init[j], data)
    requires FirstMatch(rec.idno, data, 0) == Failure(e)
    ensures FailsFirstAt(init + [rec], data, e)
  {
    var recs := init + [rec];
    assert recs[|init|] == rec;
    assert forall j :: 0 <= j < |init| ==> recs[j] == init[j];
    assert forall j :: 0 <= j < |init| ==> ScanSucceeds(recs[j], data);
  }

  lemma AllScansSnoc(init: seq<ExportedRecord>, rec: ExportedRecord, data: seq<seq<string>>)
    ensures (forall i :: 0 <= i < |init + [rec]| ==> ScanSucceeds((init + [rec])[i], data))
            <==> (forall i :: 0 <= i < |init| ==> ScanSucceeds(init[i], data)) && ScanSucceeds(rec, data)
  {
    var recs := init + [rec];
    assert recs[|init|] == rec;
    assert forall i :: 0 <= i < |init| ==> recs[i] == init[i];
  }

  /** The outer loop over the records.  It stops at the first record whose
      scan fails; otherwise every `idno` that some record has and some row
      matches is a key, holding the entry of the last record with it. */
  function MatchAll(recs: seq<ExportedRecord>, data: seq<seq<string>>): (r: Result<Dict, PhenoError>)
    ensures r.Success? <==> forall i :: 0 <= i < |recs| ==> ScanSucceeds(recs[i], data)
    ensures r.Failure? ==> FailsFirstAt(recs, data, r.error)
    ensures r.Success? ==> DistinctKeys(r.value)
    ensures r.Success? ==> forall k :: Lookup(r.value, k) == Expected(recs, data, k)
    ensures r.Success? ==> FirstOccurrenceOrder(Keys(r.value), recs)
  {
    if |recs| == 0 then Success([])
    else
      var init := recs[..|recs| - 1];
      var rec := recs[|recs| - 1];
      assert recs == init + [rec];
      AllScansSnoc(init, rec, data);
      match MatchAll(init, data)
      case Failure(e) =>
        FailsFirstSnoc(init, rec, data, e);
        Failure(e)
      case Success(d) =>
        match FirstMatch(rec.idno, data, 0)
        case Failure(e) =>
          FailsFirstLast(init, rec, data, e);
          Failure(e)
        case Success(m) =>
          var d' := if m.Some? then Put(d, rec.idno, EntryOf(rec, data[m.value])) else d;
          MatchAllLookupStep(init, rec, data, d, d');
          MatchAllOrderStep(init, rec, data, d, d');
          Success(d')
  }

  // ---------------------------------------------------------------------
  // the three tables
  // ---------------------------------------------------------------------

  function Values(d: Dict): (es: seq<Entry>)
    ensures |es| == |d| && forall i :: 0 <= i < |d| ==> es[i] == d[i].1
  {
    if |d| == 0 then [] else Values(d[..|d| - 1]) + [d[|d| - 1].1]
  }

  function Fid(e: Entry): string {
    e.fid
  }

  /** The sort key `lambda x: x[0]`. */
  function FirstField(row: seq<string>): string {
    if |row| > 0 then row[0] else ""
  }

  function PhenoRow(e: Entry): seq<string> {
    [e.fid, e.iid, e.vriiTotalRaw]
  }

  function CovarsRow(e: Entry): seq<string> {
    [e.fid, e.iid, e.sex, e.age]
  }

  function Covars2Row(e: Entry): seq<string> {
    [e.fid, e.iid, e.sex, e.age, e.education]
  }

  /** One table: the projection of every entry, sorted by its first field. */
  function Table(d: Dict, project: Entry -> seq<string>): (t: seq<seq<string>>)
    requires forall e :: |project(e)| >= 2 && project(e)[0] == e.fid
    ensures t == MapSeq(SortBy(Values(d), Fid), project)
  {
    SortMap(Values(d), project, Fid, FirstField);
    SortBy(MapSeq(Values(d), project), FirstField)
  }

  datatype Outputs = Outputs(pheno: seq<seq<string>>, covars: seq<seq<string>>, covars2: seq<seq<string>>)

  /** The whole script, from the exported records and the manifest lines
      to `pheno.txt`, `covars.txt` and `covars2.txt`.  The three tables list
      the same entries in the same order: the entries sorted by family id,
      ties in insertion order. */
  function Phenotypes(exported: seq<ExportedRecord>, manifest: seq<string>): (r: Result<Outputs, PhenoError>)
    ensures r.Success? <==> MatchAll(SelectBaseline(exported), MapSeq(manifest, ManifestRow)).Success?
    ensures r.Failure? ==> MatchAll(SelectBaseline(exported), MapSeq(manifest, ManifestRow)) == Failure(r.error)
    ensures r.Success? ==>
              var es := SortBy(Values(MatchAll(SelectBaseline(exported), MapSeq(manifest, ManifestRow)).value), Fid);
              && r.value.pheno == MapSeq(es, PhenoRow)
              && r.value.covars == MapSeq(es, CovarsRow)
              && r.value.covars2 == MapSeq(es, Covars2Row)
  {
    var recs := SelectBaseline(exported);
    var data := MapSeq(manifest, ManifestRow);
    match MatchAll(recs, data)
    case Failure(e) => Failure(e)
    case Success(d) => Success(Outputs(Table(d, PhenoRow), Table(d, CovarsRow), Table(d, Covars2Row)))
  }

  /** The three projections of an entry agree on the ids. */
  lemma ProjectionIds(e: Entry)
    ensures |PhenoRow(e)| == 3 && |CovarsRow(e)| == 4 && |Covars2Row(e)| == 5
    ensures PhenoRow(e)[..2] == [e.fid, e.iid]
    ensures CovarsRow(e)[..2] == [e.fid, e.iid]
    ensures Covars2Row(e)[..2] == [e.fid, e.iid]
  {
  }

  /** The three projections of one entry sequence agree on the ids. */
  lemma ProjectionsAgree(es: seq<Entry>, p: seq<seq<string>>, c: seq<seq<string>>, c2: seq<seq<string>>)
    requires p == MapSeq(es, PhenoRow) && c == MapSeq(es, CovarsRow) && c2 == MapSeq(es, Covars2Row)
    ensures |p| == |c| == |c2| == |es|
    ensures forall i :: 0 <= i < |es| ==>
              && |p[i]| == 3 && |c[i]| == 4 && |c2[i]| == 5
              && p[i][..2] == c[i][..2] == c2[i][..2] == [es[i].fid, es[i].iid]
  {
    forall i | 0 <= i < |es|
      ensures |p[i]| == 3 && |c[i]| == 4 && |c2[i]| == 5
      ensures p[i][..2] == c[i][..2] == c2[i][..2] == [es[i].fid, es[i].iid]
    {
      ProjectionIds(es[i]);
    }
  }

  /** The three tables have the same length and agree on family and
      individual id row by row, and the family ids ascend. */
  lemma OutputsAligned(exported: seq<ExportedRecord>, manifest: seq<string>)
    requires Phenotypes(exported, manifest).Success?
    ensures var o := Phenotypes(exported, manifest).value;
            && |o.pheno| == |o.covars| == |o.covars2|
            && (forall i :: 0 <= i < |o.pheno| ==>
                 && o.pheno[i][..2] == o.covars[i][..2] == o.covars2[i][..2]
                 && |o.pheno[i]| == 3 && |o.covars[i]| == 4 && |o.covars2[i]| == 5)
            && forall i, j :: 0 <= i < j < |o.pheno| ==> LexLe(o.pheno[i][0], o.pheno[j][0])
  {
    var d := MatchAll(SelectBaseline(exported), MapSeq(manifest, ManifestRow)).value;
    var es := SortBy(Values(d), Fid);
    var o := Phenotypes(exported, manifest).value;
    ProjectionsAgree(es, o.pheno, o.covars, o.covars2);
    SortedFids(es);
  }

  lemma SortedFids(es: seq<Entry>)
    requires SortedBy(es, Fid)
    ensures forall i, j :: 0 <= i < j < |es| ==> LexLe(MapSeq(es, PhenoRow)[i][0], MapSeq(es, PhenoRow)[j][0])
  {
    forall i, j | 0 <= i < j < |es|
      ensures LexLe(MapSeq(es, PhenoRow)[i][0], MapSeq(es, PhenoRow)[j][0])
    {
      assert Fid(es[i]) == MapSeq(es, PhenoRow)[i][0] && Fid(es[j]) == MapSeq(es, PhenoRow)[j][0];
    }
  }
}
