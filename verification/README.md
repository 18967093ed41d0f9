# Genotype panels to REDCap, and REDCap back to GWAS phenotype tables

This project models two small data-preparation scripts of a genome-wide
association study.

`aqp4.py` loads two variant-call files: the AQP4 panel on chromosome 18 and
the APOE panel on chromosome 19. It reshapes each file into one wide row per
sample, classifies every genotype call into three allele buckets and keeps
the imputed dosage beside it. It left-joins the two panels on the sample,
renames ten generated columns to REDCap field names and builds one import
record per sample. The record's `idno` is the sample name stripped of the
letters B, A, C and H, followed by `--1`.

`scrape_redcap.py` works on the REDCap records exported for the baseline
event:

- it keeps the records whose `idno` ends in `--1` and cuts the `idno` at the
  first `--`;
- it matches each record to the first line of the PLINK `.fam` manifest whose
  individual id contains that `idno`;
- it keys the matches by `idno` in a dictionary;
- it writes `pheno.txt`, `covars.txt` and `covars2.txt`, each sorted by family
  id.

## Modules

- `Results` (results.dfy): `Option` and `Result<T, E>`.
- `Strings` (strings.dfy): the Python `str` operations the scripts use.
  - `split` on one character, with `join` as its inverse.
  - `strip(chars)`, specified by the unique way of cutting a string into an
    all-`chars` prefix, a core and an all-`chars` suffix.
  - `split(c, 1)[1] if c in s`.
  - `split(sep)[0]`.
  - `in` on strings.
  - `startswith` / `endswith`.
  - The code-point order of `sorted`.
- `Sorting` (sorting.dfy): `sorted(key=...)`, written as a stable insertion
  sort.
  - Its specification: the result is a sorted permutation, and the elements of
    each key keep their input order.
  - Sorting commutes with a projection that keeps the key.
- `VariantTable` (variant_table.dfy): `get_results`.
  - A file is its sequence of lines.
  - A wide table is `map<sample, map<column, text>>`.
  - Each pandas exception becomes a `LoadError`.
- `PanelMerge` (panel_merge.dfy): the join, the rename and the import records
  of `aqp4.py`.
  - A cell is `Option<string>`, where `None` is NaN.
- `Phenotypes` (phenotypes.dfy): `scrape_redcap.py`.
  - A Python dict is a sequence of (key, value) pairs in insertion order.
- `RecordIds` (record_ids.dfy): how the `idno` written by the first script is
  read back by the second.

Some behaviours of the code that the model keeps:

- The classifier never fails. `0|0` gives "1", `2|2` gives "3", and every
  other text gives "2", including `0/0`, a single token and three tokens
  (`VariantTable.Classify`).
- `clean_header` (aqp4.py:24-28) works in three steps. It first strips
  newlines from both ends of a field. It then drops the text up to and
  including the first `_`, when there is one. Last, it strips `#` from both
  ends. So `#CHROM` becomes `CHROM` and `S1_x` becomes `x`.
- Two sample columns that agree after their first `_`, such as `S1_x` and
  `S2_x`, both clean to `x`. The melt then yields two records with the same
  sample and variant id, and the first pivot refuses them. The model reports
  this as `DuplicateEntry` (`VariantTable.MeltDuplicateSample`).

The two scripts do not always agree on an `idno`. When the stripped sample
name ends in `-`, `aqp4.py` writes for example `12---1`. `scrape_redcap.py`
reads that back as `12`, not `12-` (`RecordIds.IdnoTrailingDash`). It then
searches the manifest for `12`, so an earlier row whose individual id
contains `12` matches first.

## Model

| member | source | states |
|---|---|---|
| Strings.Split | aqp4.py:22 | `split` on one character: the pieces are separator-free, they join back to the input, and there is at least one piece |
| Strings.SplitJoin | aqp4.py:22 | splitting the join of separator-free pieces gives the pieces back, so the two facts above determine the split |
| Strings.SplitTwo | aqp4.py:62-66 | a text splits into exactly `[a, b]` if and only if it is `a`, the separator, `b` with neither piece holding the separator |
| Strings.AfterFirst | aqp4.py:26 | `split(c, 1)[1] if c in s else s`: without `c` the text is kept, otherwise the result is what follows the first `c` |
| Strings.AfterFirstOfPiece | aqp4.py:26 | for `a + c + b` with no `c` in `a` the result is `b`, whatever `b` holds |
| Strings.Strip | aqp4.py:25-27 | `strip(chars)`: the result is the core left after an all-`chars` prefix and suffix, and it neither starts nor ends with a stripped character |
| Strings.StrippedUnique | aqp4.py:25-27 | there is only one such core, so the specification determines `strip` |
| Strings.StripUnchanged | aqp4.py:25-27 | a text whose ends are not stripped characters is left as it is |
| Strings.StripAround | aqp4.py:110 | stripping `pre + mid + post` with all-`chars` padding and a `mid` that does not start or end with one gives `mid` |
| Strings.StripLeading | aqp4.py:27 | a stripped character in front makes no difference to the strip |
| Strings.StripTrailing | aqp4.py:25 | a stripped character at the end makes no difference to the strip |
| Strings.StripIdempotent | aqp4.py:25-27 | stripping twice is stripping once |
| Strings.Contains | scrape_redcap.py:36 | `needle in hay` holds exactly when the needle occurs at some index of the hay |
| Strings.BeforeFirst | scrape_redcap.py:15 | `split(sep)[0]`: a prefix of the text, with no occurrence of `sep` starting inside it, that ends at the first occurrence or at the end of the text |
| Strings.BeforeFirstOfJoin | scrape_redcap.py:15 | text that cannot start the separator, followed by the separator, is cut exactly there |
| Strings.BeforeFirstHasNoSeparator | scrape_redcap.py:15 | the kept text does not contain the separator |
| Strings.LexLeTotal | scrape_redcap.py:54 | string order is total |
| Strings.LexLeAntisymmetric | scrape_redcap.py:54 | string order is antisymmetric |
| Strings.LexLeTransitive | scrape_redcap.py:54 | string order is transitive |
| Sorting.Insert | scrape_redcap.py:54 | inserting into a sorted sequence gives a sorted permutation that has the new element after all earlier elements with its key |
| Sorting.SortBy | scrape_redcap.py:54 | `sorted(key=)`: a sorted permutation of the input in which the elements with any one key keep their input order (stability) |
| Sorting.SortMap | scrape_redcap.py:51-54 | sorting projected rows by a key the projection keeps gives the projections of the sorted rows |
| VariantTable.LastCommentIndex | aqp4.py:17-22 | the header is the last line starting with `#`; no later line starts with `#`, and there is none when no line does |
| VariantTable.Header | aqp4.py:18-22 | there is a header exactly when some line starts with `#`, and it is the last such line |
| VariantTable.HeaderIgnoresEarlierLines | aqp4.py:19-22 | lines before the last `#` line do not influence the header |
| VariantTable.CleanHeader | aqp4.py:24-28 | `clean_header`: the cleaned name neither starts nor ends with `#`, and it is a contiguous piece of the field; the lemmas below pin it down for header names |
| VariantTable.HeaderFields | aqp4.py:22-30 | one cleaned name per tab-separated field of the header line, in order, and none without a header |
| VariantTable.CleanHeaderHashed | aqp4.py:24-28 | `#CHROM` cleans to `CHROM`: a leading `#` goes from a name without `_` |
| VariantTable.CleanHeaderLastField | aqp4.py:24-28 | the last field keeps the line's newline, which is removed before the prefix is dropped (`S1_x\n` gives `x`) |
| VariantTable.CleanHeaderPlain | aqp4.py:24-28 | a name without `_` and without newline or `#` at its ends is kept |
| VariantTable.CleanHeaderDropsPrefix | aqp4.py:24-28 | only the text up to and including the first `_` goes; later underscores stay |
| VariantTable.SampleColumns | aqp4.py:37-40 | the sample columns are the header fields after the nine fixed VCF columns, none when there are fewer |
| VariantTable.IndexOf | aqp4.py:43 | the `ID` column is the first field with that name; `None` exactly when no field has it |
| VariantTable.DataRowsEmpty | aqp4.py:32-35 | there is no data row exactly when no line is a data line, which is when `read_csv` finds no data |
| VariantTable.DataRowsSkipComment | aqp4.py:32-34 | a `#` line anywhere in the file contributes no data row |
| VariantTable.MeltColumn | aqp4.py:43-44 | the records of one sample column: one per data row, carrying that row's id and that column's field |
| VariantTable.Melt | aqp4.py:43-44 | exactly one long record per (sample column, data row) pair, at the index pandas gives it, and nothing else |
| VariantTable.MeltIndexInverse | aqp4.py:43-44 | the record index of a (sample column, data row) pair determines the pair |
| VariantTable.MeltSamples | aqp4.py:40-44 | with at least one data row, the melted samples are exactly the sample columns |
| VariantTable.MeltDuplicateSample | aqp4.py:30-45 | two sample columns with the same cleaned name give two records with the same sample and id, and the load fails with `DuplicateEntry` |
| VariantTable.ParseGenotypeField | aqp4.py:53 | a field is accepted only as `call:dosage` with no further `:`, and then it is those two pieces |
| VariantTable.ParseFormatGenotypeField | aqp4.py:53 | every `call:dosage` field is accepted and split back into its call and dosage |
| VariantTable.ParseVariantId | aqp4.py:55-56 | an id with at least four `:` pieces starts with `chrom:pos:ref:alt` made of its first four pieces; with fewer pieces it is refused |
| VariantTable.ParseFormatVariantId | aqp4.py:73 | every well-formed `chrom:pos:ref:alt` id is accepted and gives back its position, reference and alternate |
| VariantTable.Classify | aqp4.py:61-68 | the bucket is always "1", "2" or "3"; it is "1" exactly for the phased call of two `0` alleles and "3" exactly for the phased call of two `2` alleles |
| VariantTable.ClassifyExamples | aqp4.py:61-68 | the phased calls of alleles 0 and 1, of alleles 1 and 1 and of alleles 1 and 2, the unphased `0/0` and a single token all give "2" |
| VariantTable.Annotate | aqp4.py:53-73 | succeeds exactly when every genotype field and every variant id split; otherwise the error names the genotype field if any of those fails; on success, each record's pieces reassemble the raw field and its bucket is the classified call |
| VariantTable.AnnotateAll | aqp4.py:70 | the annotation applies to every record in order |
| VariantTable.ColumnNamesDistinct | aqp4.py:82-85 | `{pos}_alleles` is never a `{pos}_dosage` name, and each name determines its position |
| VariantTable.ColumnsForGenerated | aqp4.py:82-85 | every column built for a position ends in `_alleles` or `_dosage` |
| VariantTable.Pivot | aqp4.py:75-86 | one row per observed sample; each row holds exactly the two columns of every position it was observed at, with the observation's bucket and dosage |
| VariantTable.PivotCovers | aqp4.py:75-86 | each observation can be read back from the wide table |
| VariantTable.UnpivotSound | aqp4.py:75-86 | everything read back from the wide table is an observation |
| VariantTable.UnpivotPivot | aqp4.py:75-86 | re-melting the wide table gives exactly the set of observations |
| VariantTable.ColumnsForSize | aqp4.py:82-85 | the positions of a row give twice as many distinct column names |
| VariantTable.PivotRowSize | aqp4.py:75-85 | every wide row has two columns per position of its sample |
| VariantTable.PivotGenerated | aqp4.py:82-85 | every column of the wide table is a generated name |
| VariantTable.WidenSound | aqp4.py:45-86 | after the checks pass, the wide table has one row per melted sample, holds every long record and only generated columns |
| VariantTable.ObservedCells | aqp4.py:53-86 | once the annotation succeeds, its observations have distinct (sample, position) pairs exactly when the melted records do |
| VariantTable.ObservedPositions | aqp4.py:53-86 | a sample's observations sit exactly at the variant positions of its melted records |
| VariantTable.Widen | aqp4.py:45-86 | succeeds exactly when the (sample, id) pairs are unique, every field and id splits and the (sample, position) pairs are unique; each failure names the first of these checks that fails; on success every record's bucket and dosage are in its sample's row under its position's columns, and each row holds exactly the two columns of every position its sample has a record at |
| VariantTable.MeltRecorded | aqp4.py:43-86 | a table holding every melted record holds the field of every (sample column, data row) pair |
| VariantTable.MeltPositions | aqp4.py:43-73 | every sample column has a melted record at the position of every data row's id, and at no other |
| VariantTable.TableSound | aqp4.py:37-86 | a widened table has one row per sample column, records every field, and every row has exactly the two columns of every data row's position |
| VariantTable.FromTable | aqp4.py:34-88 | fails with `FieldCountMismatch` exactly when a data row is not as wide as the header, then with `NoIdColumn` exactly when there is no `ID` column, then with `NoSamples` exactly when no column follows the fixed VCF columns; otherwise it is the widened melt, with one row per sample column recording every sample's field on every data row, and every row holding exactly the two columns of every data row's variant position |
| VariantTable.GetResults | aqp4.py:17-88 | `get_results`: fails with `NoData` exactly when no line is a data line, then with `NoHeader` exactly when no line starts with `#`, and otherwise exactly as the table of the last header line and the data lines; a success has one row per sample column of the cleaned header, records every sample's field on every data row, and every row holds exactly the two columns of every data row's variant position |
| PanelMerge.JoinRowCells | aqp4.py:92 | a joined row has every column of both tables, with the left cells, the right cells of the same sample, and NaN where the right table has no value |
| PanelMerge.Join | aqp4.py:92 | fails exactly when the tables share a column name; otherwise keeps exactly the left samples, each with the left cells, the right cells, and NaN for the rest of the right columns |
| PanelMerge.JoinKeepsLeftSamples | aqp4.py:92 | a sample is in the joined frame if and only if the left panel has it |
| PanelMerge.JoinMissingRight | aqp4.py:92 | a sample that the right panel lacks has NaN in every right column |
| PanelMerge.FindRename | aqp4.py:94-105 | finds the entry of the rename table with a given old (or new) name, and finds nothing only when no entry has it |
| PanelMerge.RenamesShape | aqp4.py:94-105 | the ten old names differ from each other, as do the ten new names, and every new name ends in a digit 1 to 3 |
| PanelMerge.UnrenameRename | aqp4.py:94-105 | a column that is not already a new name comes back from a rename followed by its inverse |
| PanelMerge.GeneratedNameNotTarget | aqp4.py:82-105 | no column the loader generates is a new name of the rename table |
| PanelMerge.RenameColumn | aqp4.py:94-105 | a listed old name becomes a new name that the inverse maps back to it; every other name is kept |
| PanelMerge.RenameRow | aqp4.py:94-105 | the renamed row has the new names of the row's columns, each with its own cell; unlisted columns keep name and cell |
| PanelMerge.RenameFrame | aqp4.py:94-105 | the rename keeps every sample and renames each row |
| PanelMerge.RenamedField | aqp4.py:94-105 | a new name is in the renamed row exactly when its old name was in the row, with the same cell |
| PanelMerge.JoinedNoTargets | aqp4.py:90-105 | the joined frame of two loaded panels has no new name yet, so the rename never merges two columns |
| PanelMerge.Idno | aqp4.py:110 | the `idno` ends in `--1`, and what comes before is the sample name stripped of B, A, C and H at both ends |
| PanelMerge.IdnoOfPadded | aqp4.py:110 | B, A, C and H are removed at both ends in any order and number, and kept inside the name |
| PanelMerge.ExportColumnsAreTargets | aqp4.py:113-123 | the ten fields copied into a record are exactly the ten new names |
| PanelMerge.FirstMissing | aqp4.py:113-123 | the first field, in the dict's order, that some row lacks; `None` only when every row has every field |
| PanelMerge.BuildRecord | aqp4.py:109-124 | a record holds the `idno`, the constants "2" and `baseline_arm_1`, and exactly the ten fields with the row's cells |
| PanelMerge.BuildRecords | aqp4.py:107-125 | succeeds exactly when every row has the ten fields, with one record per sample; otherwise it names the first field, in the dict's order, that some row lacks |
| PanelMerge.Export | aqp4.py:90-125 | an AQP4 load failure, then an APOE load failure, is reported as that failure; otherwise the result is the merge of the two panels; the import records cover exactly the sample columns of the AQP4 file, each with the `idno` of its sample |
| PanelMerge.MergeSucceeds | aqp4.py:92-125 | the records of the renamed joined frame are built exactly when every old name of the ten fields is a column of one of the panels, or the left panel is empty; otherwise a missing field is named |
| PanelMerge.MergeFirstAbsent | aqp4.py:107-123 | a failed build of the renamed joined frame names the first field, in the dict's order, whose old name neither panel has, because every joined row has the same columns |
| PanelMerge.MergeContents | aqp4.py:92-125 | each record of the merge has its sample's `idno`, the constants, and for every field the left panel's cell, else the right panel's, else NaN |
| PanelMerge.Merge | aqp4.py:92-125 | fails with `OverlappingColumns` exactly when the panels share a column; otherwise succeeds exactly when there is no left sample or every field's old name is a column of one of the panels, and a missing-field failure names the first field, in the dict's order, whose old name neither panel has; on success, one record per left sample with its `idno`, the constants, and for every field the left cell, else the right cell, else NaN |
| Phenotypes.Normalize | scrape_redcap.py:15-19 | the `idno` is cut before the first `--`, or kept whole when it has none; the other four fields are kept |
| Phenotypes.SelectBaseline | scrape_redcap.py:14-20 | the list comprehension: at most as many records as exported, none with `--` in its `idno`; the two lemmas below give its members and its behaviour on concatenation |
| Phenotypes.SelectBaselineAppend | scrape_redcap.py:14-20 | the selection of two concatenated exports is the concatenation of their selections |
| Phenotypes.SelectBaselineMembers | scrape_redcap.py:14-20 | every record ending in `--1` is kept in normalised form, and everything kept comes from such a record |
| Phenotypes.SelectBaselineExample | scrape_redcap.py:14-20 | `123--1` is kept as `123` and `124--2` is dropped |
| Phenotypes.ManifestRow | scrape_redcap.py:29 | the fields hold no space and join back, with single spaces, to the line stripped of whitespace |
| Phenotypes.ManifestRowDoubleSpace | scrape_redcap.py:29 | two spaces in a row make an empty field |
| Phenotypes.FirstMatch | scrape_redcap.py:35-45 | the first manifest row whose individual id contains the `idno`; all rows before it are checked and do not match; a short row met first is an error |
| Phenotypes.EntryOf | scrape_redcap.py:37-44 | the dict stored for a matched record: its four fields, and the row's first two fields as FID and IID; `MatchAll` stores it under the record's `idno` (through `Expected`) |
| Phenotypes.Lookup | scrape_redcap.py:37 | a key is found exactly when the dictionary has it, and then with its value |
| Phenotypes.Put | scrape_redcap.py:37 | `d[k] = v` keeps the key order, adding a new key at the end |
| Phenotypes.PutLookup | scrape_redcap.py:37 | after `d[k] = v`, `k` maps to `v` and every other key keeps its value |
| Phenotypes.PutDistinct | scrape_redcap.py:37 | keys stay distinct under `d[k] = v` |
| Phenotypes.FirstWith | scrape_redcap.py:31-37 | the index of the first record with an `idno`, and none only when no record has it |
| Phenotypes.MatchAllOrderStep | scrape_redcap.py:31-37 | one more record keeps the keys in the order of first occurrence: a new key goes last and it is the record's own `idno` |
| Phenotypes.MatchAll | scrape_redcap.py:31-45 | succeeds exactly when every record's scan does; a failure is that of the first record whose scan fails; on success, every `idno` maps to the entry of the last record with it and its first matching row, the keys are distinct and in the order of each `idno`'s first record |
| Phenotypes.Table | scrape_redcap.py:51-54 | a table is the projection of the entries sorted by family id |
| Phenotypes.Phenotypes | scrape_redcap.py:14-75 | succeeds exactly when matching the baseline records against the manifest does, with its error otherwise; the three tables are the three projections of the same entry sequence, sorted by family id |
| Phenotypes.ProjectionsAgree | scrape_redcap.py:51-75 | the projections have 3, 4 and 5 fields and agree on family and individual id |
| Phenotypes.OutputsAligned | scrape_redcap.py:51-75 | the three tables have equal length, agree on the ids row by row, and their family ids ascend |
| RecordIds.BeforeFirstOfIdno | scrape_redcap.py:15 | cutting `a--1` at the first `--` gives `a` when `a` has no `-` |
| RecordIds.IdnoReadBack | scrape_redcap.py:14-20 | an `idno` written for a sample whose stripped name has no `-` is a baseline `idno` and is read back as the stripped name |
| RecordIds.IdnoTrailingDash | scrape_redcap.py:15 | a stripped name ending in `-` is read back without that `-`, so it differs from the name that was written |

## Left out

- Reading files, the REDCap API (`export_records`, `import_records`),
  `load_dotenv` and the environment variables are left out. The model's inputs
  are the lines of the files and the exported records. Its outputs are the
  import records and the three tables as rows of fields.
- csv.writer's quoting and line endings are not modelled. A table is a
  sequence of rows of fields.
- The commented-out classifier at aqp4.py:58-59 is not modelled.
- The intermediate pivot by variant id and the re-melt (aqp4.py:45-51) are
  modelled only by the check they imply: a duplicate (sample, id) pair fails.
  The melt already has every (sample, id) pair, so the first pivot adds no NaN
  and only reorders records. The final pivot does not depend on that order.
- Column and row order of the pandas frames is not modelled; frames are maps.
- VariantTable.Pivot: a wide row holds only the columns of its own sample's
  positions. pandas' `pivot` gives every row every column and fills the gaps
  with NaN. A missing wide cell stands for that NaN: the join reads a missing
  column as `None`. For a loaded file the two agree anyway, since the melt
  has every (sample, row) pair and so every row has every column.
- PanelMerge.BuildRecords: names the first field, in the dict's order, that
  some row lacks. The script raises at the first row, in frame order, that
  lacks a field. The two agree when every row has the same columns, which
  holds for every joined frame (`PanelMerge.MergeFirstAbsent`).
  The same holds for the order of the import records, which are keyed by
  sample.
- VariantTable.FromTable: reports every data row whose field count differs
  from the header as `FieldCountMismatch`. pandas instead pads a row shorter
  than the first row with NaN and fails only on a longer one, or when the
  column count differs from the header.
- VariantTable.ParseGenotypeField: refuses any field without exactly two `:`
  pieces. With `expand=True`, pandas would give missing pieces as NaN when
  the piece counts vary between rows, and would fail only when the widest
  field does not have two pieces.
- VariantTable.ParseVariantId: refuses an id with fewer than four `:`
  pieces. pandas would give NaN for the missing pieces whenever another id
  of the file has four.
- VariantTable.Annotate: the dosage stays text. `astype(float)` at
  aqp4.py:54 and `float(...)` at aqp4.py:116-123 are not modelled, so a
  dosage that does not parse as a number is not an error in the model.
- PanelMerge.RenameRow: requires that no column already carries a new name.
  In that case pandas would produce two columns with the same name.
  `PanelMerge.JoinedNoTargets` shows that the requirement holds for every
  frame the script renames.
- PanelMerge.BuildRecord: a NaN cell stays `None`. `float(NaN)` and the
  JSON encoding of the import are not modelled.
- pandas' `read_csv` defaults are not modelled: skipping lines that hold only
  whitespace, reading cells such as `NA` or `nan` as NaN, treating `"` as a
  quote character, and inferring column types. Every data line is a row and
  every field is text. Under type inference an all-numeric `ID` or sample
  column is read as numbers, and `.str.split` at aqp4.py:53 and 55 then
  raises; the model does not have that failure.
- Phenotypes.Phenotypes: the `events=["baseline_arm_1"]` filter of the export
  is done by REDCap and is part of the input.
