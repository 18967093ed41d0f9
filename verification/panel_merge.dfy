/** The end of `aqp4.py`: the two panels' wide tables (`aqp4` and `apoe`)
    are indexed by sample and left-joined, ten generated column names are
    renamed to the REDCap field names, and one import record is built per
    sample, with `idno` derived from the sample name.

    A frame is a map from sample to a map from column name to cell; a cell
    is `None` where pandas would hold NaN. */
module PanelMerge {
  import opened Results
  import opened Strings
  import opened VariantTable

  type Cell = Option<string>
  type Cells = map<string, Cell>
  type Frame = map<string, Cells>

  datatype MergeError =
    | OverlappingColumns        // `join` without suffixes refuses a column name both sides carry
    | MissingColumn(name: string) // a row lacks one of the ten renamed columns: `row[name]` fails

  /** The column names used anywhere in a table. */
  function ColumnsOf<V>(t: map<string, map<string, V>>): set<string> {
    set s, c | s in t && c in t[s] :: c
  }

  // ---------------------------------------------------------------------
  // the left join
  // ---------------------------------------------------------------------

  /** The joined row of a left sample: every column of either table, the
      left sample's own cells, the right table's cells for the same sample,
      and NaN where a table has no value for it. */
  function JoinRow(left: Wide, right: Wide, s: string): Cells
    requires s in left
  {
    (map c | c in ColumnsOf(left) :: if c in left[s] then Some(left[s][c]) else None)
    + (map c | c in ColumnsOf(right) :: if s in right && c in right[s] then Some(right[s][c]) else None)
  }

  /** Each column of a row is a column of its table. */
  lemma ColumnsOfMember<V>(t: map<string, map<string, V>>, s: string, c: string)
    requires s in t && c in t[s]
    ensures c in ColumnsOf(t)
  {
  }

  /** What the joined row holds, when the two tables share no column. */
  lemma JoinRowCells(left: Wide, right: Wide, s: string)
    requires s in left
    requires ColumnsOf(left) * ColumnsOf(right) == {}
    ensures JoinRow(left, right, s).Keys == ColumnsOf(left) + ColumnsOf(right)
    ensures forall c :: c in left[s] ==> JoinRow(left, right, s)[c] == Some(left[s][c])
    ensures s in right ==> forall c :: c in right[s] ==> JoinRow(left, right, s)[c] == Some(right[s][c])
    ensures forall c :: c in ColumnsOf(right) && (s !in right || c !in right[s]) ==> JoinRow(left, right, s)[c] == None
    ensures forall c :: c in ColumnsOf(left) && c !in left[s] ==> JoinRow(left, right, s)[c] == None
  {
    forall c | c in left[s]
      ensures JoinRow(left, right, s)[c] == Some(left[s][c])
    {
      ColumnsOfMember(left, s, c);
      assert c !in ColumnsOf(left) * ColumnsOf(right);
    }
    if s in right {
      forall c | c in right[s]
        ensures JoinRow(left, right, s)[c] == Some(right[s][c])
      {
        ColumnsOfMember(right, s, c);
      }
    }
    forall c | c in ColumnsOf(left) && c !in left[s]
      ensures JoinRow(left, right, s)[c] == None
    {
      assert c !in ColumnsOf(left) * ColumnsOf(right);
    }
  }

  lemma JoinRowsCells(left: Wide, right: Wide)
    requires ColumnsOf(left) * ColumnsOf(right) == {}
    ensures forall s :: s in left ==> JoinRow(left, right, s).Keys == ColumnsOf(left) + ColumnsOf(right)
    ensures forall s, c :: s in left && c in left[s] ==> JoinRow(left, right, s)[c] == Some(left[s][c])
    ensures forall s, c :: s in left && s in right && c in right[s] ==> JoinRow(left, right, s)[c] == Some(right[s][c])
    ensures forall s, c :: s in left && c in ColumnsOf(right) && (s !in right || c !in right[s]) ==>
              JoinRow(left, right, s)[c] == None
    ensures forall s, c :: s in left && c in ColumnsOf(left) && c !in left[s] ==> JoinRow(left, right, s)[c] == None
  {
    forall s | s in left
      ensures JoinRow(left, right, s).Keys == ColumnsOf(left) + ColumnsOf(right)
    {
      JoinRowCells(left, right, s);
    }
    forall s, c | s in left && c in left[s]
      ensures JoinRow(left, right, s)[c] == Some(left[s][c])
    {
      JoinRowCells(left, right, s);
    }
    forall s, c | s in left && s in right && c in right[s]
      ensures JoinRow(left, right, s)[c] == Some(right[s][c])
    {
      JoinRowCells(left, right, s);
    }
    forall s, c | s in left && c in ColumnsOf(right) && (s !in right || c !in right[s])
      ensures JoinRow(left, right, s)[c] == None
    {
      JoinRowCells(left, right, s);
    }
    forall s, c | s in left && c in ColumnsOf(left) && c !in left[s]
      ensures JoinRow(left, right, s)[c] == None
    {
      JoinRowCells(left, right, s);
    }
  }

  /** `aqp4.join(apoe)` on the sample index: a left join that keeps exactly
      the left table's samples and refuses overlapping column names. */
  function Join(left: Wide, right: Wide): (r: Result<Frame, MergeError>)
    ensures r.Failure? <==> ColumnsOf(left) * ColumnsOf(right) != {}
    ensures r.Failure? ==> r.error == OverlappingColumns
    ensures r.Success? ==> r.value.Keys == left.Keys
    ensures r.Success? ==> forall s :: s in r.value ==> r.value[s].Keys == ColumnsOf(left) + ColumnsOf(right)
    ensures r.Success? ==> forall s, c :: s in left && c in left[s] ==> r.value[s][c] == Some(left[s][c])
    ensures r.Success? ==> forall s, c :: s in left && s in right && c in right[s] ==> r.value[s][c] == Some(right[s][c])
    ensures r.Success? ==> forall s, c :: s in left && c in ColumnsOf(right) && (s !in right || c !in right[s]) ==>
              r.value[s][c] == None
    ensures r.Success? ==> forall s, c :: s in left && c in ColumnsOf(left) && c !in left[s] ==> r.value[s][c] == None
  {
    if ColumnsOf(left) * ColumnsOf(right) != {} then Failure(OverlappingColumns)
    else
      JoinRowsCells(left, right);
      Success(map s | s in left :: JoinRow(left, right, s))
  }

  /** Every sample of the left panel is in the joined frame and a sample
      that only the right panel has is not. */
  lemma JoinKeepsLeftSamples(left: Wide, right: Wide, s: string)
    requires Join(left, right).Success?
    ensures s in Join(left, right).value <==> s in left
  {
  }

  /** A sample that the right panel lacks gets NaN in every right column. */
  lemma JoinMissingRight(left: Wide, right: Wide, s: string)
    requires Join(left, right).Success? && s in left && s !in right
    ensures forall c :: c in ColumnsOf(right) ==> Join(left, right).value[s][c] == None
  {
  }

  // ---------------------------------------------------------------------
  // the rename table
  // ---------------------------------------------------------------------

  /** The ten renames of `all_snps.rename(columns=...)`, old name first. */
  const Renames: seq<(string, string)> := [
    ("24439072_alleles", "aqp4_allele1"),
    ("24439072_dosage", "aqp4_dosage1"),
    ("24435587_alleles", "aqp4_allele2"),
    ("24435587_dosage", "aqp4_dosage2"),
    ("24431689_alleles", "aqp4_allele3"),
    ("24431689_dosage", "aqp4_dosage3"),
    ("45412079_alleles", "apoe_allele1"),
    ("45412079_dosage", "apoe_dosage1"),
    ("45411941_alleles", "apoe_allele2"),
    ("45411941_dosage", "apoe_dosage2")
  ]

  /** The old name of a rename, or its new name when `byNew` holds. */
  function NameOf(rename: (string, string), byNew: bool): string {
    if byNew then rename.1 else rename.0
  }

  /** The index of the rename whose old name (or new name, when `byNew`
      holds) is `c`, searching from `from`. */
  function FindRename(c: string, byNew: bool, from: nat): (r: Option<nat>)
    ensures r.Some? ==> from <= r.value < |Renames| && NameOf(Renames[r.value], byNew) == c
    ensures r.None? ==> forall i :: from <= i < |Renames| ==> NameOf(Renames[i], byNew) != c
    decreases |Renames| - from
  {
    if from >= |Renames| then None
    else if NameOf(Renames[from], byNew) == c then Some(from)
    else FindRename(c, byNew, from + 1)
  }

  predicate IsTarget(c: string) {
    FindRename(c, true, 0).Some?
  }

  /** `df.rename(columns=...)` on one column name: a listed old name
      becomes its new name, which the inverse maps back; any other name is
      kept. */
  function RenameColumn(c: string): (r: string)
    ensures FindRename(c, false, 0).None? ==> r == c
    ensures FindRename(c, false, 0).Some? ==> IsTarget(r) && UnrenameColumn(r) == c
  {
    match FindRename(c, false, 0)
    case Some(i) =>
      RenamesShape();
      Renames[i].1
    case None => c
  }

  function UnrenameColumn(c: string): string {
    match FindRename(c, true, 0)
    case Some(i) => Renames[i].0
    case None => c
  }

  /** The table names ten different old columns and ten different new
      ones, and every new name ends in a digit. */
  lemma RenamesShape()
    ensures forall i, j :: 0 <= i < j < |Renames| ==> Renames[i].0 != Renames[j].0 && Renames[i].1 != Renames[j].1
    ensures forall i :: 0 <= i < |Renames| ==> |Renames[i].1| == 12 && '1' <= Renames[i].1[11] <= '3'
  {
  }

  /** A name that is not a new name comes back from a rename and its
      inverse. */
  lemma UnrenameRename(c: string)
    requires !IsTarget(c)
    ensures UnrenameColumn(RenameColumn(c)) == c
  {
    RenamesShape();
  }

  /** No column the loader generates is a new name: every new name ends in
      a digit, every generated name in a letter. */
  lemma GeneratedNameNotTarget(c: string)
    requires GeneratedName(c)
    ensures !IsTarget(c)
  {
    RenamesShape();
    if EndsWith(c, "_alleles") {
      assert c[|c| - 1] == "_alleles"[7];
    } else {
      assert c[|c| - 1] == "_dosage"[6];
    }
  }

  predicate NoTargetColumns(row: Cells) {
    forall c :: c in row ==> !IsTarget(c)
  }

  /** Renaming a row whose columns carry no new name yet: a listed column
      takes its new name with its cell, every other column keeps its name
      and cell, and no other column appears. */
  function RenameRow(row: Cells): (r: Cells)
    requires NoTargetColumns(row)
    ensures r.Keys == set c | c in row :: RenameColumn(c)
    ensures forall c :: c in row ==> r[RenameColumn(c)] == row[c]
    ensures forall c :: c in row && FindRename(c, false, 0).None? ==> c in r && r[c] == row[c]
  {
    assert forall c :: c in row ==> UnrenameColumn(RenameColumn(c)) == c by {
      forall c | c in row
        ensures UnrenameColumn(RenameColumn(c)) == c
      {
        UnrenameRename(c);
      }
    }
    map c | c in row :: RenameColumn(c) := row[c]
  }

  /** The rename over the whole frame. */
  function RenameFrame(f: Frame): (r: Frame)
    requires forall s :: s in f ==> NoTargetColumns(f[s])
    ensures r.Keys == f.Keys
    ensures forall s :: s in r ==> r[s] == RenameRow(f[s])
  {
    map s | s in f :: RenameRow(f[s])
  }

  /** For a new name `t`, the renamed row has `t` exactly when the row has
      its old name, and then holds that column's cell. */
  lemma RenamedField(row: Cells, t: string)
    requires NoTargetColumns(row) && IsTarget(t)
    ensures t in RenameRow(row) <==> UnrenameColumn(t) in row
    ensures t in RenameRow(row) ==> RenameRow(row)[t] == row[UnrenameColumn(t)]
  {
    RenamesShape();
    var i := FindRename(t, true, 0).value;
    var o := Renames[i].0;
    assert FindRename(o, false, 0).Some?;
    assert RenameColumn(o) == t by {
      var i' := FindRename(o, false, 0).value;
      assert Renames[i'].0 == Renames[i].0;
    }
    if t in RenameRow(row) {
      var c :| c in row && RenameColumn(c) == t;
      assert !IsTarget(c);
      var j := FindRename(c, false, 0).value;
      assert Renames[j].1 == Renames[i].1;
    }
  }

  // ---------------------------------------------------------------------
  // the import records
  // ---------------------------------------------------------------------

  /** The characters `strip("BACH")` removes from both ends. */
  const BachChars: set<char> := {'B', 'A', 'C', 'H'}

  /** `f"{str(sample_id).strip("BACH")}--1"`. */
  function Idno(sample: string): (r: string)
    ensures EndsWith(r, "--1")
    ensures IsStripped(sample, BachChars, r[..|r| - 3])
  {
    var r := Strip(sample, BachChars) + "--1";
    assert r[..|r| - 3] == Strip(sample, BachChars);
    r
  }

  /** The strip works on both ends and removes B, A, C and H in any order
      and any number (`"BA12H"` gives `"12--1"`, `"CH7AB"` gives `"7--1"`),
      while the same letters inside the name stay (`"X9B"` gives
      `"X9--1"`). */
  lemma IdnoOfPadded(pre: string, mid: string, post: string)
    requires forall k :: 0 <= k < |pre| ==> pre[k] in BachChars
    requires forall k :: 0 <= k < |post| ==> post[k] in BachChars
    requires mid != [] ==> mid[0] !in BachChars && mid[|mid| - 1] !in BachChars
    ensures Idno(pre + mid + post) == mid + "--1"
  {
    StripAround(pre, mid, post, BachChars);
  }

  /** The ten REDCap fields a record reads from the renamed row, in the
      order of the dict literal. */
  const ExportColumns: seq<string> := [
    "aqp4_allele1", "aqp4_allele2", "aqp4_allele3",
    "aqp4_dosage1", "aqp4_dosage2", "aqp4_dosage3",
    "apoe_allele1", "apoe_allele2", "apoe_dosage1", "apoe_dosage2"
  ]

  /** The fields read are exactly the new names of the rename table. */
  lemma ExportColumnsAreTargets(c: string)
    ensures c in ExportColumns <==> IsTarget(c)
  {
  }

  /** One import record: the `idno`, the two constant fields, and the ten
      copied cells by REDCap field name.  The dosage conversion to float is
      not modelled; a cell stays text, `None` for NaN. */
  datatype ExportRecord = ExportRecord(
    idno: string,
    genomicsComplete: string,
    redcapEventName: string,
    fields: map<string, Cell>)

  /** The first name that some row of the frame lacks. */
  function FirstMissing(f: Frame, names: seq<string>): (r: Option<nat>)
    ensures r.Some? ==> r.value < |names| && (exists s :: s in f && names[r.value] !in f[s])
    ensures r.Some? ==> forall k, s :: 0 <= k < r.value && s in f ==> names[k] in f[s]
    ensures r.None? ==> forall k, s :: 0 <= k < |names| && s in f ==> names[k] in f[s]
  {
    if |names| == 0 then None
    else if exists s :: s in f && names[0] !in f[s] then Some(0)
    else match FirstMissing(f, names[1..])
      case None => None
      case Some(k) => Some(k + 1)
  }

  /** `names[k]` is the first of `names` that some row of `f` lacks. */
  predicate FirstLacking(f: Frame, names: seq<string>, k: nat) {
    && k < |names|
    && (exists s :: s in f && names[k] !in f[s])
    && forall j, s :: 0 <= j < k && s in f ==> names[j] in f[s]
  }

  /** The `row_dict` of one sample whose row has every export column. */
  function BuildRecord(sample: string, row: Cells): (r: ExportRecord)
    requires forall c :: c in ExportColumns ==> c in row
    ensures r.idno == Idno(sample) && r.genomicsComplete == "2" && r.redcapEventName == "baseline_arm_1"
    ensures r.fields.Keys == set c | c in ExportColumns
    ensures forall c :: c in ExportColumns ==> r.fields[c] == row[c]
  {
    ExportRecord(Idno(sample), "2", "baseline_arm_1", map c | c in ExportColumns :: row[c])
  }

  /** The records of every sample of the frame, keyed by sample.  It fails
      when a row lacks an export column; the column named is the first, in
      the dict's order, that some row lacks. */
  function BuildRecords(f: Frame): (r: Result<map<string, ExportRecord>, MergeError>)
    ensures r.Success? <==> forall s, c :: s in f && c in ExportColumns ==> c in f[s]
    ensures r.Failure? ==> r.error.MissingColumn? && r.error.name in ExportColumns
                           && exists s :: s in f && r.error.name !in f[s]
    ensures r.Failure? ==> exists k: nat :: FirstLacking(f, ExportColumns, k) && r.error == MissingColumn(ExportColumns[k])
    ensures r.Success? ==> r.value.Keys == f.Keys
    ensures r.Success? ==> forall s :: s in f ==> r.value[s] == BuildRecord(s, f[s])
  {
    match FirstMissing(f, ExportColumns)
    case Some(k) =>
      assert ExportColumns[k] in ExportColumns;
      assert FirstLacking(f, ExportColumns, k);
      Failure(MissingColumn(ExportColumns[k]))
    case None => Success(map s | s in f :: BuildRecord(s, f[s]))
  }

  // ---------------------------------------------------------------------
  // the whole script
  // ---------------------------------------------------------------------

  datatype Panel = Aqp4 | Apoe

  datatype ExportError =
    | LoadFailed(panel: Panel, loadError: LoadError)
    | MergeFailed(mergeError: MergeError)

  /** Every column of a table built by the loader is a generated name. */
  lemma ColumnsOfGenerated(w: Wide)
    requires AllGenerated(w)
    ensures forall c :: c in ColumnsOf(w) ==> GeneratedName(c)
  {
  }

  /** The joined frame of two loaded panels has no column that already
      carries one of the new names, so the rename never merges columns. */
  lemma JoinedNoTargets(left: Wide, right: Wide)
    requires AllGenerated(left) && AllGenerated(right)
    requires Join(left, right).Success?
    ensures forall s :: s in Join(left, right).value ==> NoTargetColumns(Join(left, right).value[s])
  {
    ColumnsOfGenerated(left);
    ColumnsOfGenerated(right);
    forall c | GeneratedName(c)
      ensures !IsTarget(c)
    {
      GeneratedNameNotTarget(c);
    }
  }

  /** What the joined frame holds for a sample of the left panel under
      column `c`: the left cell, else the right cell, else NaN. */
  function JoinedCell(left: Wide, right: Wide, s: string, c: string): Cell
    requires s in left
  {
    if c in left[s] then Some(left[s][c])
    else if s in right && c in right[s] then Some(right[s][c])
    else None
  }

  /** After the join and the rename, a sample's row has a field exactly
      when one of the panels has the field's old name as a column, and it
      holds the joined cell of that column. */
  lemma RenamedJoin(left: Wide, right: Wide, f: Frame, s: string, t: string)
    requires Join(left, right) == Success(f)
    requires forall x :: x in f ==> NoTargetColumns(f[x])
    requires s in left && IsTarget(t)
    ensures t in RenameFrame(f)[s] <==> UnrenameColumn(t) in ColumnsOf(left) + ColumnsOf(right)
    ensures t in RenameFrame(f)[s] ==> RenameFrame(f)[s][t] == JoinedCell(left, right, s, UnrenameColumn(t))
  {
    RenamedField(f[s], t);
  }

  lemma MergeFrame(left: Wide, right: Wide, f: Frame)
    requires Join(left, right) == Success(f)
    requires forall x :: x in f ==> NoTargetColumns(f[x])
    ensures forall s, t :: s in left && t in ExportColumns ==>
              (t in RenameFrame(f)[s] <==> UnrenameColumn(t) in ColumnsOf(left) + ColumnsOf(right))
    ensures forall s, t :: s in left && t in ExportColumns && t in RenameFrame(f)[s] ==>
              RenameFrame(f)[s][t] == JoinedCell(left, right, s, UnrenameColumn(t))
  {
    forall s, t | s in left && t in ExportColumns
      ensures t in RenameFrame(f)[s] <==> UnrenameColumn(t) in ColumnsOf(left) + ColumnsOf(right)
      ensures t in RenameFrame(f)[s] ==> RenameFrame(f)[s][t] == JoinedCell(left, right, s, UnrenameColumn(t))
    {
      ExportColumnsAreTargets(t);
      RenamedJoin(left, right, f, s, t);
    }
  }

  /** `ExportColumns[k]` is the first field whose old name is not among
      `cols`. */
  predicate FirstAbsentField(cols: set<string>, k: nat) {
    && k < |ExportColumns|
    && UnrenameColumn(ExportColumns[k]) !in cols
    && forall j :: 0 <= j < k ==> UnrenameColumn(ExportColumns[j]) in cols
  }

  /** Building the records of the renamed joined frame succeeds exactly
      when there is no sample or every field's old name is a column of one
      of the panels. */
  lemma MergeSucceeds(left: Wide, right: Wide, f: Frame)
    requires Join(left, right) == Success(f)
    requires forall x :: x in f ==> NoTargetColumns(f[x])
    ensures BuildRecords(RenameFrame(f)).Success? <==>
              (left != map[] ==> forall t :: t in ExportColumns ==> UnrenameColumn(t) in ColumnsOf(left) + ColumnsOf(right))
    ensures BuildRecords(RenameFrame(f)).Failure? ==>
              && BuildRecords(RenameFrame(f)).error.MissingColumn?
              && BuildRecords(RenameFrame(f)).error.name in ExportColumns
              && UnrenameColumn(BuildRecords(RenameFrame(f)).error.name) !in ColumnsOf(left) + ColumnsOf(right)
  {
    MergeFrame(left, right, f);
    var g := RenameFrame(f);
    assert g.Keys == left.Keys;
    if left != map[] {
      var s0 :| s0 in left;
      if forall t :: t in ExportColumns ==> UnrenameColumn(t) in ColumnsOf(left) + ColumnsOf(right) {
        assert forall s, t :: s in g && t in ExportColumns ==> t in g[s];
      } else {
        var t :| t in ExportColumns && UnrenameColumn(t) !in ColumnsOf(left) + ColumnsOf(right);
        assert t !in g[s0];
      }
    }
  }

  /** The field a failed build names is the first whose old name neither
      panel has: every joined row has the same columns. */
  lemma MergeFirstAbsent(left: Wide, right: Wide, f: Frame, e: MergeError)
    requires Join(left, right) == Success(f)
    requires forall x :: x in f ==> NoTargetColumns(f[x])
    requires BuildRecords(RenameFrame(f)) == Failure(e)
    ensures e.MissingColumn?
    ensures exists k: nat :: FirstAbsentField(ColumnsOf(left) + ColumnsOf(right), k) && e.name == ExportColumns[k]
  {
    MergeFrame(left, right, f);
    var g := RenameFrame(f);
    var cols := ColumnsOf(left) + ColumnsOf(right);
    var k: nat :| FirstLacking(g, ExportColumns, k) && e == MissingColumn(ExportColumns[k]);
    var s1 :| s1 in g && ExportColumns[k] !in g[s1];
    assert s1 in left;
    forall j | 0 <= j < k
      ensures UnrenameColumn(ExportColumns[j]) in cols
    {
      assert ExportColumns[j] in g[s1];
    }
    assert FirstAbsentField(cols, k);
  }

  /** The records of the renamed joined frame, when they can be built. */
  lemma MergeContents(left: Wide, right: Wide, f: Frame, records: map<string, ExportRecord>)
    requires Join(left, right) == Success(f)
    requires forall x :: x in f ==> NoTargetColumns(f[x])
    requires BuildRecords(RenameFrame(f)) == Success(records)
    ensures records.Keys == left.Keys
    ensures forall s :: s in records ==>
              && records[s].idno == Idno(s)
              && records[s].genomicsComplete == "2" && records[s].redcapEventName == "baseline_arm_1"
              && records[s].fields.Keys == set t | t in ExportColumns
    ensures forall s, t :: s in left && t in ExportColumns ==>
              records[s].fields[t] == JoinedCell(left, right, s, UnrenameColumn(t))
  {
    MergeFrame(left, right, f);
  }

  /** The join, the rename and the records for two loaded panels.  It fails
      with `OverlappingColumns` exactly when the panels share a column;
      past the join, it fails exactly when there is a sample and the old
      name of some field is a column of neither panel, and that field is
      named.  Each record holds the sample's `idno`, the two constants, and
      under every field the joined cell of the field's old name. */
  function Merge(left: Wide, right: Wide): (r: Result<map<string, ExportRecord>, MergeError>)
    requires AllGenerated(left) && AllGenerated(right)
    ensures r == Failure(OverlappingColumns) <==> ColumnsOf(left) * ColumnsOf(right) != {}
    ensures r.Success? <==>
              && ColumnsOf(left) * ColumnsOf(right) == {}
              && (left != map[] ==> forall t :: t in ExportColumns ==> UnrenameColumn(t) in ColumnsOf(left) + ColumnsOf(right))
    ensures r.Failure? && r.error.MissingColumn? ==>
              r.error.name in ExportColumns && UnrenameColumn(r.error.name) !in ColumnsOf(left) + ColumnsOf(right)
    ensures r.Failure? && r.error.MissingColumn? ==>
              exists k: nat :: FirstAbsentField(ColumnsOf(left) + ColumnsOf(right), k) && r.error.name == ExportColumns[k]
    ensures r.Success? ==> r.value.Keys == left.Keys
    ensures r.Success? ==> forall s :: s in r.value ==>
              && r.value[s].idno == Idno(s)
              && r.value[s].genomicsComplete == "2" && r.value[s].redcapEventName == "baseline_arm_1"
              && r.value[s].fields.Keys == set t | t in ExportColumns
    ensures r.Success? ==> forall s, t :: s in left && t in ExportColumns ==>
              r.value[s].fields[t] == JoinedCell(left, right, s, UnrenameColumn(t))
  {
    match Join(left, right)
    case Failure(e) => Failure(e)
    case Success(f) =>
      JoinedNoTargets(left, right);
      MergeSucceeds(left, right, f);
      match BuildRecords(RenameFrame(f))
      case Failure(e) =>
        MergeFirstAbsent(left, right, f, e);
        Failure(e)
      case Success(records) =>
        MergeContents(left, right, f, records);
        Success(records)
  }

  /** The script from the two variant files to the import records: load
      both panels, then join, rename and build one record per sample of
      the `aqp4` panel.  A load failure of either panel is reported as
      such, the AQP4 panel first; otherwise the script succeeds exactly
      when `Merge` does, with its records. */
  function Export(aqp4Lines: seq<string>, apoeLines: seq<string>): (r: Result<map<string, ExportRecord>, ExportError>)
    ensures GetResults(aqp4Lines).Failure? ==> r == Failure(LoadFailed(Aqp4, GetResults(aqp4Lines).error))
    ensures GetResults(aqp4Lines).Success? && GetResults(apoeLines).Failure? ==>
              r == Failure(LoadFailed(Apoe, GetResults(apoeLines).error))
    ensures r.Success? <==>
              && GetResults(aqp4Lines).Success? && GetResults(apoeLines).Success?
              && Merge(GetResults(aqp4Lines).value, GetResults(apoeLines).value).Success?
    ensures r.Failure? && r.error.MergeFailed? ==>
              && GetResults(aqp4Lines).Success? && GetResults(apoeLines).Success?
              && Merge(GetResults(aqp4Lines).value, GetResults(apoeLines).value) == Failure(r.error.mergeError)
    ensures r.Success? ==> r.value == Merge(GetResults(aqp4Lines).value, GetResults(apoeLines).value).value
    ensures r.Success? ==> r.value.Keys == set s | s in SampleColumns(HeaderFields(aqp4Lines))
    ensures r.Success? ==> forall s :: s in r.value ==>
              r.value[s].idno == Idno(s) && r.value[s].genomicsComplete == "2" && r.value[s].redcapEventName == "baseline_arm_1"
  {
    match GetResults(aqp4Lines)
    case Failure(e) => Failure(LoadFailed(Aqp4, e))
    case Success(a) =>
      match GetResults(apoeLines)
      case Failure(e) => Failure(LoadFailed(Apoe, e))
      case Success(b) =>
        match Merge(a, b)
        case Failure(e) => Failure(MergeFailed(e))
        case Success(records) => Success(records)
  }
}
