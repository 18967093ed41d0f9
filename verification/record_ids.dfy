/** The two scripts meet at the REDCap `idno`: `aqp4.py` writes
    `{sample stripped of B, A, C, H}--1` and `scrape_redcap.py` keeps the
    records ending in `--1` and cuts them at the first `--`.  For a sample
    whose stripped name holds no `-`, reading back gives the stripped
    name. */
module RecordIds {
  import opened Strings
  import opened PanelMerge
  import opened Phenotypes

  /** The text before the first `--` of `a + "--1"` is `a` when `a` has no
      `-`. */
  lemma BeforeFirstOfIdno(a: string)
    requires '-' !in a
    ensures BeforeFirst(a + "--1", "--") == a
  {
    assert a + "--1" == a + "--" + "1";
    BeforeFirstOfJoin(a, "--", "1");
  }

  /** A record written by the genotype script for `sample` is a baseline
      record for the phenotype script, which recovers the stripped sample
      name from it. */
  lemma IdnoReadBack(sample: string, sex: string, age: string, education: string, vrii: string)
    requires '-' !in Strip(sample, BachChars)
    ensures var rec := ExportedRecord(Idno(sample), sex, age, education, vrii);
            IsBaseline(rec) && Normalize(rec).idno == Strip(sample, BachChars)
  {
    BeforeFirstOfIdno(Strip(sample, BachChars));
  }

  /** A stripped name ending in `-` loses that `-` on the way back: the
      sample `12-` is written as `12---1` and read back as `12`, so the
      phenotype script searches the manifest for the shorter `12`, which
      may match a different row first (an earlier one whose identifier
      contains `12`). */
  lemma IdnoTrailingDash(sample: string, n: string, sex: string, age: string, education: string, vrii: string)
    requires Strip(sample, BachChars) == n + "-"
    requires '-' !in n
    ensures var rec := ExportedRecord(Idno(sample), sex, age, education, vrii);
            IsBaseline(rec) && Normalize(rec).idno == n && n != Strip(sample, BachChars)
  {
    assert Idno(sample) == n + "--" + "-1";
    BeforeFirstOfJoin(n, "--", "-1");
  }
}
