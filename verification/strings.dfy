/** The Python `str` operations both pipelines rely on, each written out
    explicitly together with an independent description of what it
    computes: `split` on one character, `strip` with a set of characters,
    `startswith` / `endswith`, the substring test `in`, `split(sep)[0]`
    for a longer separator, and the code-point order that `sorted` uses. */
module Strings {

  /** Python `s.startswith(p)`. */
  predicate StartsWith(s: string, p: string) {
    |p| <= |s| && s[..|p|] == p
  }

  /** Python `s.endswith(p)`. */
  predicate EndsWith(s: string, p: string) {
    |p| <= |s| && s[|s| - |p|..] == p
  }

  /** `needle` occurs in `hay` starting at index `i`. */
  ghost predicate OccursAt(hay: string, needle: string, i: int) {
    0 <= i && i + |needle| <= |hay| && hay[i..i + |needle|] == needle
  }

  /** A piece of a piece of `a` is a piece of `a`. */
  lemma OccursWithin(a: string, b: string, c: string)
    requires (exists i :: OccursAt(a, b, i)) && (exists j :: OccursAt(b, c, j))
    ensures exists k :: OccursAt(a, c, k)
  {
    var i :| OccursAt(a, b, i);
    var j :| OccursAt(b, c, j);
    forall t | 0 <= t < |c|
      ensures a[i + j + t] == c[t]
    {
      assert a[i..i + |b|][j + t] == a[i + j + t];
      assert b[j..j + |c|][t] == b[j + t];
    }
    assert a[i + j..i + j + |c|] == c;
    assert OccursAt(a, c, i + j);
  }

  // ---------------------------------------------------------------------
  // split / join on a single character
  // ---------------------------------------------------------------------

  /** Python `sep.join(parts)` for a one-character separator. */
  function Join(parts: seq<string>, sep: char): string
    requires |parts| > 0
  {
    if |parts| == 1 then parts[0] else parts[0] + [sep] + Join(parts[1..], sep)
  }

  /** Python `s.split(sep)` for a one-character separator: every occurrence
      of `sep` separates two pieces, so the empty string gives `[""]` and
      adjacent separators give empty pieces.  The pieces hold no separator
      and joining them back gives `s`; `SplitJoin` shows that these two
      facts determine the pieces. */
  function Split(s: string, sep: char): (parts: seq<string>)
    ensures |parts| > 0
    ensures forall i :: 0 <= i < |parts| ==> sep !in parts[i]
    ensures Join(parts, sep) == s
    decreases |s|
  {
    if |s| == 0 then [""]
    else
      var rest := Split(s[1..], sep);
      if s[0] == sep then
        assert ([""] + rest)[1..] == rest;
        [""] + rest
      else
        var parts := [[s[0]] + rest[0]] + rest[1..];
        assert |rest| > 1 ==> parts[1..] == rest[1..];
        parts
  }

  lemma {:induction false} SplitNoSeparator(a: string, sep: char)
    requires sep !in a
    ensures Split(a, sep) == [a]
    decreases |a|
  {
    if |a| > 0 {
      SplitNoSeparator(a[1..], sep);
      assert [a[0]] + a[1..] == a;
    }
  }

  lemma {:induction false} SplitAfterPiece(a: string, sep: char, b: string)
    requires sep !in a
    ensures Split(a + [sep] + b, sep) == [a] + Split(b, sep)
    decreases |a|
  {
    var s := a + [sep] + b;
    if |a| == 0 {
      assert s[1..] == b;
    } else {
      assert s[1..] == a[1..] + [sep] + b;
      SplitAfterPiece(a[1..], sep, b);
      assert [a[0]] + a[1..] == a;
    }
  }

  /** Splitting the join of separator-free pieces gives the pieces back. */
  lemma {:induction false} SplitJoin(parts: seq<string>, sep: char)
    requires |parts| > 0
    requires forall i :: 0 <= i < |parts| ==> sep !in parts[i]
    ensures Split(Join(parts, sep), sep) == parts
  {
    if |parts| == 1 {
      SplitNoSeparator(parts[0], sep);
    } else {
      SplitJoin(parts[1..], sep);
      SplitAfterPiece(parts[0], sep, Join(parts[1..], sep));
      assert [parts[0]] + parts[1..] == parts;
    }
  }

  /** The two-piece case of `SplitJoin`, spelled out: `s.split(sep)` is
      `[a, b]` exactly when `s` is `a`, the separator and `b`, with no
      separator in `a` or `b`. */
  lemma SplitTwo(s: string, sep: char, a: string, b: string)
    ensures Split(s, sep) == [a, b] <==> (s == a + [sep] + b && sep !in a && sep !in b)
  {
    if s == a + [sep] + b && sep !in a && sep !in b {
      assert Join([a, b], sep) == s;
      SplitJoin([a, b], sep);
    }
    if Split(s, sep) == [a, b] {
      assert Join([a, b], sep) == a + [sep] + b;
    }
  }

  // ---------------------------------------------------------------------
  // text after the first occurrence of a character
  // ---------------------------------------------------------------------

  /** What follows the first `c` is a piece of the text. */
  lemma AfterFirstOccurs(s: string, c: char)
    ensures exists i :: OccursAt(s, AfterFirst(s, c), i)
  {
    var r := AfterFirst(s, c);
    if c in s {
      assert s[|s| - |r|..] == r;
      assert OccursAt(s, r, |s| - |r|);
    } else {
      assert OccursAt(s, r, 0);
    }
  }

  /** Python `s.split(c, 1)[1] if c in s else s`: everything after the first
      `c`, or `s` itself when it holds no `c`. */
  function AfterFirst(s: string, c: char): (r: string)
    ensures c !in s ==> r == s
    ensures c in s ==> |r| < |s| && s == s[..|s| - |r| - 1] + [c] + r && c !in s[..|s| - |r| - 1]
  {
    if |s| == 0 then s
    else if s[0] == c then
      assert s == s[..0] + [c] + s[1..];
      s[1..]
    else
      var r := AfterFirst(s[1..], c);
      if c in s[1..] then
        assert s[..|s| - |r| - 1] == [s[0]] + s[1..][..|s[1..]| - |r| - 1];
        r
      else
        s
  }

  /** Without the separator nothing is removed. */
  lemma AfterFirstAbsent(s: string, c: char)
    requires c !in s
    ensures AfterFirst(s, c) == s
  {
  }

  /** Only the text up to the first `c` is dropped; later `c`s stay. */
  lemma {:induction false} AfterFirstOfPiece(prefix: string, c: char, rest: string)
    requires c !in prefix
    ensures AfterFirst(prefix + [c] + rest, c) == rest
    decreases |prefix|
  {
    var s := prefix + [c] + rest;
    if |prefix| == 0 {
      assert s[1..] == rest;
    } else {
      assert s[1..] == prefix[1..] + [c] + rest;
      AfterFirstOfPiece(prefix[1..], c, rest);
    }
  }

  // ---------------------------------------------------------------------
  // strip with a set of characters
  // ---------------------------------------------------------------------

  /** `r` is what is left of `s` once every leading and trailing character
      from `cs` is removed: a contiguous piece of `s` preceded and followed
      only by characters of `cs`, and neither starting nor ending with one. */
  ghost predicate IsStripped(s: string, cs: set<char>, r: string) {
    exists i :: StrippedAt(s, cs, r, i)
  }

  ghost predicate StrippedAt(s: string, cs: set<char>, r: string, i: int) {
    && 0 <= i <= |s| - |r|
    && s[i..i + |r|] == r
    && (forall k :: 0 <= k < i ==> s[k] in cs)
    && (forall k :: i + |r| <= k < |s| ==> s[k] in cs)
    && (r != [] ==> r[0] !in cs && r[|r| - 1] !in cs)
  }

  /** How many characters at the start of `s` belong to `cs`. */
  function LeadingCount(s: string, cs: set<char>): (n: nat)
    ensures n <= |s|
    ensures forall k :: 0 <= k < n ==> s[k] in cs
    ensures n < |s| ==> s[n] !in cs
  {
    if |s| > 0 && s[0] in cs then 1 + LeadingCount(s[1..], cs) else 0
  }

  /** How many characters at the end of `s` belong to `cs`. */
  function TrailingCount(s: string, cs: set<char>): (n: nat)
    ensures n <= |s|
    ensures forall k :: |s| - n <= k < |s| ==> s[k] in cs
    ensures n < |s| ==> s[|s| - n - 1] !in cs
  {
    if |s| > 0 && s[|s| - 1] in cs then 1 + TrailingCount(s[..|s| - 1], cs) else 0
  }

  /** What `strip` leaves is a contiguous piece of the text. */
  lemma StripOccurs(s: string, cs: set<char>)
    ensures exists i :: OccursAt(s, Strip(s, cs), i)
  {
    var i :| StrippedAt(s, cs, Strip(s, cs), i);
    assert OccursAt(s, Strip(s, cs), i);
  }

  /** Python `s.strip(chars)`: removes characters of `chars` from both ends;
      it is not a prefix or suffix removal. */
  function Strip(s: string, cs: set<char>): (r: string)
    ensures IsStripped(s, cs, r)
  {
    var i := LeadingCount(s, cs);
    if i == |s| then
      assert StrippedAt(s, cs, [], i);
      []
    else
      var n := TrailingCount(s, cs);
      assert s[i] !in cs;
      assert n < |s| - i;
      var r := s[i..|s| - n];
      assert StrippedAt(s, cs, r, i);
      r
  }

  /** At most one string is `s` stripped of `cs`, so `IsStripped` pins down
      `Strip` completely. */
  lemma StrippedUnique(s: string, cs: set<char>, r1: string, r2: string)
    requires IsStripped(s, cs, r1) && IsStripped(s, cs, r2)
    ensures r1 == r2
  {
    var i1 :| StrippedAt(s, cs, r1, i1);
    var i2 :| StrippedAt(s, cs, r2, i2);
    assert r1 != [] ==> s[i1] == r1[0] && s[i1 + |r1| - 1] == r1[|r1| - 1];
    assert r2 != [] ==> s[i2] == r2[0] && s[i2 + |r2| - 1] == r2[|r2| - 1];
  }

  /** A string with no character of `cs` at either end is left unchanged. */
  lemma StripUnchanged(s: string, cs: set<char>)
    requires s != [] ==> s[0] !in cs && s[|s| - 1] !in cs
    ensures Strip(s, cs) == s
  {
    assert StrippedAt(s, cs, s, 0);
    StrippedUnique(s, cs, Strip(s, cs), s);
  }

  /** Text between runs of characters of `cs` is exactly what the strip
      keeps, whatever the order of those characters. */
  lemma StripAround(pre: string, mid: string, post: string, cs: set<char>)
    requires forall k :: 0 <= k < |pre| ==> pre[k] in cs
    requires forall k :: 0 <= k < |post| ==> post[k] in cs
    requires mid != [] ==> mid[0] !in cs && mid[|mid| - 1] !in cs
    ensures Strip(pre + mid + post, cs) == mid
  {
    var s := pre + mid + post;
    assert s[|pre|..|pre| + |mid|] == mid;
    forall k | |pre| + |mid| <= k < |s|
      ensures s[k] in cs
    {
      assert s[k] == post[k - |pre| - |mid|];
    }
    assert StrippedAt(s, cs, mid, |pre|);
    StrippedUnique(s, cs, Strip(s, cs), mid);
  }

  lemma StrippedAtCons(c: char, t: string, cs: set<char>, r: string, i: int)
    requires c in cs && StrippedAt(t, cs, r, i)
    ensures StrippedAt([c] + t, cs, r, i + 1)
  {
    var s := [c] + t;
    assert s[i + 1..i + 1 + |r|] == t[i..i + |r|];
    forall k | 0 < k < i + 1
      ensures s[k] in cs
    {
      assert s[k] == t[k - 1];
    }
    forall k | i + 1 + |r| <= k < |s|
      ensures s[k] in cs
    {
      assert s[k] == t[k - 1];
    }
  }

  lemma StrippedAtSnoc(t: string, c: char, cs: set<char>, r: string, i: int)
    requires c in cs && StrippedAt(t, cs, r, i)
    ensures StrippedAt(t + [c], cs, r, i)
  {
    var s := t + [c];
    assert s[i..i + |r|] == t[i..i + |r|];
    forall k | 0 <= k < i
      ensures s[k] in cs
    {
      assert s[k] == t[k];
    }
    forall k | i + |r| <= k < |t|
      ensures s[k] in cs
    {
      assert s[k] == t[k];
    }
  }

  /** A leading character of `cs` makes no difference to the strip. */
  lemma StripLeading(c: char, t: string, cs: set<char>)
    requires c in cs
    ensures Strip([c] + t, cs) == Strip(t, cs)
  {
    var r := Strip(t, cs);
    var i :| StrippedAt(t, cs, r, i);
    StrippedAtCons(c, t, cs, r, i);
    StrippedUnique([c] + t, cs, Strip([c] + t, cs), r);
  }

  /** A trailing character of `cs` makes no difference to the strip. */
  lemma StripTrailing(t: string, c: char, cs: set<char>)
    requires c in cs
    ensures Strip(t + [c], cs) == Strip(t, cs)
  {
    var r := Strip(t, cs);
    var i :| StrippedAt(t, cs, r, i);
    StrippedAtSnoc(t, c, cs, r, i);
    StrippedUnique(t + [c], cs, Strip(t + [c], cs), r);
  }

  /** Stripping twice is stripping once. */
  lemma StripIdempotent(s: string, cs: set<char>)
    ensures Strip(Strip(s, cs), cs) == Strip(s, cs)
  {
    var r := Strip(s, cs);
    var i :| StrippedAt(s, cs, r, i);
    StripUnchanged(r, cs);
  }

  /** The whitespace set of Python's `str.strip()` without arguments: the
      characters for which `str.isspace()` holds. */
  const Whitespace: set<char> := {
    '\t', '\n', '\U{0B}', '\U{0C}', '\r', '\U{1C}', '\U{1D}', '\U{1E}', '\U{1F}',
    ' ', '\U{85}', '\U{A0}', '\U{1680}',
    '\U{2000}', '\U{2001}', '\U{2002}', '\U{2003}', '\U{2004}', '\U{2005}',
    '\U{2006}', '\U{2007}', '\U{2008}', '\U{2009}', '\U{200A}',
    '\U{2028}', '\U{2029}', '\U{202F}', '\U{205F}', '\U{3000}'
  }

  // ---------------------------------------------------------------------
  // substring test
  // ---------------------------------------------------------------------

  /** Python `needle in hay` for strings: `needle` occurs somewhere in
      `hay`; the empty string occurs in every string. */
  predicate Contains(hay: string, needle: string)
    ensures Contains(hay, needle) <==> exists i :: OccursAt(hay, needle, i)
    decreases |hay|
  {
    if StartsWith(hay, needle) then
      assert OccursAt(hay, needle, 0);
      true
    else if |hay| == 0 then
      assert forall i :: !OccursAt(hay, needle, i);
      false
    else
      var rest := Contains(hay[1..], needle);
      assert forall i :: OccursAt(hay[1..], needle, i) <==> OccursAt(hay, needle, i + 1);
      assert forall i :: OccursAt(hay, needle, i) ==> i == 0 || OccursAt(hay[1..], needle, i - 1);
      rest
  }

  // ---------------------------------------------------------------------
  // text before the first occurrence of a separator string
  // ---------------------------------------------------------------------

  /** Python `s.split(sep)[0]` for a non-empty separator: the text before
      the first occurrence of `sep`, or all of `s` when `sep` does not
      occur in it. */
  function BeforeFirst(s: string, sep: string): (r: string)
    requires |sep| > 0
    ensures r <= s
    ensures forall k :: 0 <= k < |r| ==> !OccursAt(s, sep, k)
    ensures |r| == |s| || OccursAt(s, sep, |r|)
    decreases |s|
  {
    if StartsWith(s, sep) then
      assert OccursAt(s, sep, 0);
      ""
    else if |s| == 0 then ""
    else
      var rest := BeforeFirst(s[1..], sep);
      BeforeFirstStep(s, sep, rest);
      [s[0]] + rest
  }

  /** An occurrence in the tail is an occurrence one place further on. */
  lemma OccursShift(s: string, sep: string, k: nat)
    requires |s| > 0
    ensures OccursAt(s[1..], sep, k) <==> OccursAt(s, sep, k + 1)
  {
    if k + |sep| <= |s| - 1 {
      assert s[1..][k..k + |sep|] == s[k + 1..k + 1 + |sep|];
    }
  }

  lemma BeforeFirstStep(s: string, sep: string, rest: string)
    requires |sep| > 0 && |s| > 0 && !StartsWith(s, sep)
    requires rest <= s[1..]
    requires forall k :: 0 <= k < |rest| ==> !OccursAt(s[1..], sep, k)
    requires |rest| == |s| - 1 || OccursAt(s[1..], sep, |rest|)
    ensures [s[0]] + rest <= s
    ensures forall k :: 0 <= k < |rest| + 1 ==> !OccursAt(s, sep, k)
    ensures |rest| + 1 == |s| || OccursAt(s, sep, |rest| + 1)
  {
    forall k | 0 <= k < |rest| + 1
      ensures !OccursAt(s, sep, k)
    {
      if k > 0 {
        OccursShift(s, sep, k - 1);
      }
    }
    if |rest| < |s| - 1 {
      OccursShift(s, sep, |rest|);
    }
    assert s == [s[0]] + s[1..];
  }

  /** Text that cannot start the separator is kept whole up to the
      separator that follows it. */
  lemma BeforeFirstOfJoin(a: string, sep: string, b: string)
    requires |sep| > 0 && sep[0] !in a
    ensures BeforeFirst(a + sep + b, sep) == a
  {
    var s := a + sep + b;
    var r := BeforeFirst(s, sep);
    assert OccursAt(s, sep, |a|) by {
      assert s[|a|..|a| + |sep|] == sep;
    }
    forall k | 0 <= k < |a|
      ensures !OccursAt(s, sep, k)
    {
      assert s[k] == a[k];
    }
    assert r == s[..|r|];
    assert s[..|a|] == a;
  }

  /** The kept text holds no occurrence of the separator. */
  lemma BeforeFirstHasNoSeparator(s: string, sep: string)
    requires |sep| > 0
    ensures !Contains(BeforeFirst(s, sep), sep)
  {
    var r := BeforeFirst(s, sep);
    forall k | OccursAt(r, sep, k)
      ensures false
    {
      assert s[k..k + |sep|] == r[k..k + |sep|];
      assert OccursAt(s, sep, k);
    }
  }

  // ---------------------------------------------------------------------
  // string order
  // ---------------------------------------------------------------------

  /** Python `a <= b` on strings: lexicographic order by code point, a
      proper prefix coming first. */
  predicate LexLe(a: string, b: string)
    decreases |a|
  {
    if |a| == 0 then true
    else if |b| == 0 then false
    else if a[0] != b[0] then a[0] < b[0]
    else LexLe(a[1..], b[1..])
  }

  lemma {:induction false} LexLeTotal(a: string, b: string)
    ensures LexLe(a, b) || LexLe(b, a)
    decreases |a|
  {
    if |a| > 0 && |b| > 0 && a[0] == b[0] {
      LexLeTotal(a[1..], b[1..]);
    }
  }

  lemma {:induction false} LexLeAntisymmetric(a: string, b: string)
    requires LexLe(a, b) && LexLe(b, a)
    ensures a == b
    decreases |a|
  {
    if |a| > 0 {
      LexLeAntisymmetric(a[1..], b[1..]);
      assert a == [a[0]] + a[1..] && b == [b[0]] + b[1..];
    }
  }

  lemma {:induction false} LexLeTransitive(a: string, b: string, c: string)
    requires LexLe(a, b) && LexLe(b, c)
    ensures LexLe(a, c)
    decreases |a|
  {
    if |a| > 0 && a[0] == b[0] && b[0] == c[0] {
      LexLeTransitive(a[1..], b[1..], c[1..]);
    }
  }
}
