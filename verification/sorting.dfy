/** Python's `sorted(xs, key=k)` for string keys: a stable sort by the
    code-point order of the keys, written as an insertion sort.  Its
    partner is the stability statement `FilterKey(SortBy(xs, k), k, v) ==
    FilterKey(xs, k, v)`: the elements with any one key keep their input
    order, which together with sortedness determines the result. */
module Sorting {
  import opened Strings

  /** Apply `f` to every element, keeping the order. */
  function MapSeq<A, B>(xs: seq<A>, f: A -> B): (ys: seq<B>)
    ensures |ys| == |xs|
    ensures forall i :: 0 <= i < |xs| ==> ys[i] == f(xs[i])
  {
    if |xs| == 0 then [] else MapSeq(xs[..|xs| - 1], f) + [f(xs[|xs| - 1])]
  }

  /** The elements whose key is `v`, in their order in `xs`. */
  function FilterKey<T>(xs: seq<T>, key: T -> string, v: string): seq<T>
  {
    if |xs| == 0 then []
    else FilterKey(xs[..|xs| - 1], key, v) + (if key(xs[|xs| - 1]) == v then [xs[|xs| - 1]] else [])
  }

  ghost predicate SortedBy<T>(xs: seq<T>, key: T -> string) {
    forall i, j :: 0 <= i < j < |xs| ==> LexLe(key(xs[i]), key(xs[j]))
  }

  lemma {:induction false} FilterKeyAppend<T>(a: seq<T>, b: seq<T>, key: T -> string, v: string)
    ensures FilterKey(a + b, key, v) == FilterKey(a, key, v) + FilterKey(b, key, v)
    decreases |b|
  {
    if |b| > 0 {
      assert (a + b)[..|a + b| - 1] == a + b[..|b| - 1];
      FilterKeyAppend(a, b[..|b| - 1], key, v);
    } else {
      assert a + b == a;
    }
  }

  /** Insert `x` into the sorted `s` after every element whose key is at
      most the key of `x`. */
  function Insert<T>(s: seq<T>, x: T, key: T -> string): (r: seq<T>)
    requires SortedBy(s, key)
    ensures |r| == |s| + 1
    ensures multiset(r) == multiset(s) + multiset{x}
    ensures SortedBy(r, key)
    ensures forall v :: FilterKey(r, key, v) == FilterKey(s, key, v) + (if key(x) == v then [x] else [])
    decreases |s|
  {
    if |s| == 0 then [x]
    else if LexLe(key(s[|s| - 1]), key(x)) then
      InsertLast(s, x, key);
      s + [x]
    else
      var last := s[|s| - 1];
      var init := s[..|s| - 1];
      assert s == init + [last];
      var r' := Insert(init, x, key);
      LexLeTotal(key(x), key(last));
      InsertBefore(init, last, x, r', key);
      r' + [last]
  }

  lemma InsertLast<T>(s: seq<T>, x: T, key: T -> string)
    requires |s| > 0 && SortedBy(s, key)
    requires LexLe(key(s[|s| - 1]), key(x))
    ensures SortedBy(s + [x], key)
    ensures forall v :: FilterKey(s + [x], key, v) == FilterKey(s, key, v) + (if key(x) == v then [x] else [])
  {
    forall i | 0 <= i < |s| - 1
      ensures LexLe(key(s[i]), key(x))
    {
      LexLeTransitive(key(s[i]), key(s[|s| - 1]), key(x));
    }
    assert (s + [x])[..|s|] == s;
  }

  lemma InsertBefore<T>(init: seq<T>, last: T, x: T, r': seq<T>, key: T -> string)
    requires SortedBy(init + [last], key)
    requires !LexLe(key(last), key(x)) && LexLe(key(x), key(last))
    requires SortedBy(r', key)
    requires multiset(r') == multiset(init) + multiset{x}
    requires forall v :: FilterKey(r', key, v) == FilterKey(init, key, v) + (if key(x) == v then [x] else [])
    ensures SortedBy(r' + [last], key)
    ensures forall v :: FilterKey(r' + [last], key, v)
                       == FilterKey(init + [last], key, v) + (if key(x) == v then [x] else [])
  {
    forall i | 0 <= i < |r'|
      ensures LexLe(key(r'[i]), key(last))
    {
      InsertBeforeBound(init, last, x, r', key, i);
    }
    assert (r' + [last])[..|r'|] == r';
    assert (init + [last])[..|init|] == init;
    assert key(x) != key(last);
  }

  lemma InsertBeforeBound<T>(init: seq<T>, last: T, x: T, r': seq<T>, key: T -> string, i: nat)
    requires SortedBy(init + [last], key)
    requires LexLe(key(x), key(last))
    requires multiset(r') == multiset(init) + multiset{x}
    requires i < |r'|
    ensures LexLe(key(r'[i]), key(last))
  {
    var s := init + [last];
    assert r'[i] in multiset(r');
    if r'[i] != x {
      assert r'[i] in multiset(init);
      var j :| 0 <= j < |init| && init[j] == r'[i];
      assert s[j] == init[j] && s[|s| - 1] == last;
    }
  }

  /** Python `sorted(xs, key=key)`. */
  function SortBy<T>(xs: seq<T>, key: T -> string): (r: seq<T>)
    ensures |r| == |xs|
    ensures multiset(r) == multiset(xs)
    ensures SortedBy(r, key)
    ensures forall v :: FilterKey(r, key, v) == FilterKey(xs, key, v)
  {
    if |xs| == 0 then []
    else
      var init := xs[..|xs| - 1];
      assert xs == init + [xs[|xs| - 1]];
      Insert(SortBy(init, key), xs[|xs| - 1], key)
  }

  lemma {:induction false} MapSeqPrefix<A, B>(xs: seq<A>, f: A -> B)
    requires |xs| > 0
    ensures MapSeq(xs, f)[..|xs| - 1] == MapSeq(xs[..|xs| - 1], f)
  {
  }

  /** Inserting commutes with a mapping that carries keys over. */
  lemma {:induction false} InsertMap<A, B>(s: seq<A>, x: A, f: A -> B, ka: A -> string, kb: B -> string)
    requires SortedBy(s, ka) && SortedBy(MapSeq(s, f), kb)
    requires forall i :: 0 <= i < |s| ==> kb(f(s[i])) == ka(s[i])
    requires kb(f(x)) == ka(x)
    ensures Insert(MapSeq(s, f), f(x), kb) == MapSeq(Insert(s, x, ka), f)
    decreases |s|
  {
    var ms := MapSeq(s, f);
    if |s| == 0 {
      assert MapSeq([x], f) == [f(x)];
    } else if LexLe(ka(s[|s| - 1]), ka(x)) {
      assert ms[|ms| - 1] == f(s[|s| - 1]);
      assert MapSeq(s + [x], f) == ms + [f(x)];
    } else {
      var init := s[..|s| - 1];
      MapSeqPrefix(s, f);
      assert SortedBy(init, ka);
      InsertMap(init, x, f, ka, kb);
      var r := Insert(init, x, ka);
      assert Insert(s, x, ka) == r + [s[|s| - 1]];
      assert MapSeq(r + [s[|s| - 1]], f) == MapSeq(r, f) + [f(s[|s| - 1])] by {
        assert (r + [s[|s| - 1]])[..|r|] == r;
      }
    }
  }

  /** Sorting the mapped sequence gives the mapped sorted sequence when the
      mapping keeps each element's key: sorting two projections of the
      same rows by the same key puts the rows in the same order. */
  lemma {:induction false} SortMap<A, B>(xs: seq<A>, f: A -> B, ka: A -> string, kb: B -> string)
    requires forall i :: 0 <= i < |xs| ==> kb(f(xs[i])) == ka(xs[i])
    ensures SortBy(MapSeq(xs, f), kb) == MapSeq(SortBy(xs, ka), f)
    decreases |xs|
  {
    if |xs| > 0 {
      var init := xs[..|xs| - 1];
      MapSeqPrefix(xs, f);
      SortMap(init, f, ka, kb);
      var sorted := SortBy(init, ka);
      forall i | 0 <= i < |sorted|
        ensures kb(f(sorted[i])) == ka(sorted[i])
      {
        assert sorted[i] in multiset(init);
      }
      InsertMap(sorted, xs[|xs| - 1], f, ka, kb);
    }
  }
}
