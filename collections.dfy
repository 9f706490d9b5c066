/**
 * Ordered collections shared by the retrieval code: a stable sort by
 * descending score (PHP's arsort(), and SQL's ORDER BY on a negated key),
 * taking the first `limit` entries (SQL LIMIT, array_slice) and keeping the
 * first occurrence of each value (array_unique, and a PHP array's key order).
 */
module Collections {

  /** One element of an ordered PHP array or query result: a key and its score. */
  datatype Entry = Entry(key: int, score: real)

  predicate Distinct(s: seq<int>)
  {
    forall i, j :: 0 <= i < j < |s| ==> s[i] != s[j]
  }

  function Keys(s: seq<Entry>): (r: seq<int>)
    ensures |r| == |s|
    ensures forall i :: 0 <= i < |s| ==> r[i] == s[i].key
  {
    seq(|s|, i requires 0 <= i < |s| => s[i].key)
  }

  predicate SortedDesc(s: seq<Entry>)
  {
    forall i, j :: 0 <= i < j < |s| ==> s[i].score >= s[j].score
  }

  /** The entries of `s` whose score is exactly `v`, in their order in `s`. */
  function WithScore(s: seq<Entry>, v: real): seq<Entry>
  {
    if s == [] then [] else (if s[0].score == v then [s[0]] else []) + WithScore(s[1..], v)
  }

  lemma {:induction false} WithScoreAppend(a: seq<Entry>, b: seq<Entry>, v: real)
    ensures WithScore(a + b, v) == WithScore(a, v) + WithScore(b, v)
  {
    if a == [] {
      assert a + b == b;
    } else {
      var h := if a[0].score == v then [a[0]] else [];
      assert (a + b)[0] == a[0];
      assert (a + b)[1..] == a[1..] + b;
      WithScoreAppend(a[1..], b, v);
      calc {
        WithScore(a + b, v);
        h + WithScore(a[1..] + b, v);
        h + (WithScore(a[1..], v) + WithScore(b, v));
        (h + WithScore(a[1..], v)) + WithScore(b, v);
        WithScore(a, v) + WithScore(b, v);
      }
    }
  }

  lemma {:induction false} WithScoreNone(s: seq<Entry>, v: real)
    requires forall i :: 0 <= i < |s| ==> s[i].score != v
    ensures WithScore(s, v) == []
  {
    if s != [] {
      WithScoreNone(s[1..], v);
    }
  }

  /**
   * Insert `x` into `t` after every leading entry whose score is at least
   * x's: into a descending list this places `x` after all entries of equal
   * score, which keeps the sort stable.
   */
  function InsertDesc(t: seq<Entry>, x: Entry): seq<Entry>
  {
    if t == [] then [x]
    else if t[0].score < x.score then [x] + t
    else [t[0]] + InsertDesc(t[1..], x)
  }

  lemma {:induction false} InsertDescPermutes(t: seq<Entry>, x: Entry)
    ensures multiset(InsertDesc(t, x)) == multiset(t) + multiset{x}
  {
    if t != [] && t[0].score >= x.score {
      InsertDescPermutes(t[1..], x);
      assert t == [t[0]] + t[1..];
    }
  }

  lemma {:induction false} InsertDescSorted(t: seq<Entry>, x: Entry)
    requires SortedDesc(t)
    ensures SortedDesc(InsertDesc(t, x))
    decreases |t|
  {
    if t != [] && t[0].score >= x.score {
      var u := InsertDesc(t[1..], x);
      assert SortedDesc(t[1..]);
      InsertDescSorted(t[1..], x);
      InsertDescPermutes(t[1..], x);
      forall e | e in u ensures t[0].score >= e.score {
        assert e in multiset(t[1..]) + multiset{x};
        if e != x {
          var k :| 0 <= k < |t[1..]| && t[1..][k] == e;
          assert t[k + 1] == e;
        }
      }
      SortedCons(t[0], u);
    } else if t != [] {
      SortedCons(x, t);
    }
  }

  /** An entry scoring at least as well as every entry of a sorted sequence can lead it. */
  lemma SortedCons(h: Entry, u: seq<Entry>)
    requires SortedDesc(u)
    requires forall e :: e in u ==> h.score >= e.score
    ensures SortedDesc([h] + u)
  {
    var r := [h] + u;
    forall i, j | 0 <= i < j < |r| ensures r[i].score >= r[j].score {
      assert r[j] == u[j - 1];
      if i == 0 { assert r[j] in u; }
      else { assert r[i] == u[i - 1]; }
    }
  }

  lemma {:induction false} InsertDescStable(t: seq<Entry>, x: Entry, v: real)
    requires SortedDesc(t)
    ensures WithScore(InsertDesc(t, x), v) == WithScore(t, v) + (if x.score == v then [x] else [])
  {
    var r := InsertDesc(t, x);
    var hx := if x.score == v then [x] else [];
    if t == [] {
      assert r == [x];
      assert r[1..] == [];
      assert WithScore(r, v) == hx + WithScore([], v);
    } else if t[0].score < x.score {
      assert r[0] == x && r[1..] == t;
      assert WithScore(r, v) == hx + WithScore(t, v);
      if x.score == v {
        WithScoreNone(t, v);
      }
    } else {
      var h0 := if t[0].score == v then [t[0]] else [];
      assert SortedDesc(t[1..]);
      InsertDescStable(t[1..], x, v);
      assert r[0] == t[0] && r[1..] == InsertDesc(t[1..], x);
      calc {
        WithScore(r, v);
        h0 + WithScore(InsertDesc(t[1..], x), v);
        h0 + (WithScore(t[1..], v) + hx);
        (h0 + WithScore(t[1..], v)) + hx;
        WithScore(t, v) + hx;
      }
    }
  }

  lemma {:induction false} InsertDescDistinct(t: seq<Entry>, x: Entry)
    requires Distinct(Keys(t))
    requires forall i :: 0 <= i < |t| ==> t[i].key != x.key
    ensures Distinct(Keys(InsertDesc(t, x)))
  {
    if t != [] && t[0].score >= x.score {
      var u := InsertDesc(t[1..], x);
      InsertDescDistinct(t[1..], x);
      InsertDescPermutes(t[1..], x);
      forall k | 0 <= k < |u| ensures u[k].key != t[0].key {
        assert u[k] in multiset(t[1..]) + multiset{x};
      }
    }
  }

  /** PHP's arsort(): a stable sort by descending score. */
  function SortDesc(s: seq<Entry>): seq<Entry>
  {
    if s == [] then [] else InsertDesc(SortDesc(s[..|s| - 1]), s[|s| - 1])
  }

  /**
   * The sort's result is a permutation of its input, in descending score
   * order, and entries of equal score keep their input order.
   */
  lemma {:induction false} SortDescCorrect(s: seq<Entry>)
    ensures multiset(SortDesc(s)) == multiset(s)
    ensures SortedDesc(SortDesc(s))
    ensures forall v :: WithScore(SortDesc(s), v) == WithScore(s, v)
  {
    if s != [] {
      var p, x := s[..|s| - 1], s[|s| - 1];
      SortDescCorrect(p);
      InsertDescPermutes(SortDesc(p), x);
      InsertDescSorted(SortDesc(p), x);
      assert s == p + [x];
      assert SortDesc(s) == InsertDesc(SortDesc(p), x);
      forall v ensures WithScore(SortDesc(s), v) == WithScore(s, v) {
        InsertKeepsOrder(SortDesc(p), p, x, v);
      }
    }
  }

  /** Inserting into a stable sort of `p` gives the entries of score v in their order in p + [x]. */
  lemma InsertKeepsOrder(sorted: seq<Entry>, p: seq<Entry>, x: Entry, v: real)
    requires SortedDesc(sorted) && WithScore(sorted, v) == WithScore(p, v)
    ensures WithScore(InsertDesc(sorted, x), v) == WithScore(p + [x], v)
  {
    InsertDescStable(sorted, x, v);
    WithScoreAppend(p, [x], v);
    assert [x][1..] == [];
    assert WithScore([x], v) == (if x.score == v then [x] else []) + WithScore([], v);
  }

  lemma SortDescLength(s: seq<Entry>)
    ensures |SortDesc(s)| == |s|
  {
    SortDescCorrect(s);
    assert |multiset(SortDesc(s))| == |multiset(s)|;
  }

  /** Sorting keeps the keys distinct when they were distinct. */
  lemma {:induction false} SortDescDistinct(s: seq<Entry>)
    requires Distinct(Keys(s))
    ensures Distinct(Keys(SortDesc(s)))
  {
    if s != [] {
      var p, x := s[..|s| - 1], s[|s| - 1];
      assert Keys(p) == Keys(s)[..|s| - 1];
      SortDescDistinct(p);
      SortDescCorrect(p);
      var sp := SortDesc(p);
      forall i | 0 <= i < |sp| ensures sp[i].key != x.key {
        assert sp[i] in multiset(p);
        var j :| 0 <= j < |p| && p[j] == sp[i];
        assert Keys(s)[j] != Keys(s)[|s| - 1];
      }
      InsertDescDistinct(sp, x);
    }
  }

  /** SQL LIMIT / array_slice($a, 0, $limit) after a sort: the best `limit` entries. */
  function TopK(s: seq<Entry>, limit: nat): seq<Entry>
  {
    var sorted := SortDesc(s);
    sorted[..if limit < |sorted| then limit else |sorted|]
  }

  /**
   * TopK returns min(limit, |s|) entries of `s`, best first, and leaves out
   * only entries scoring no better than every entry it returns.
   */
  lemma TopKCorrect(s: seq<Entry>, limit: nat)
    ensures |TopK(s, limit)| == if limit < |s| then limit else |s|
    ensures SortedDesc(TopK(s, limit))
    ensures forall i :: 0 <= i < |TopK(s, limit)| ==> TopK(s, limit)[i] in s
    ensures forall e :: e in s && e !in TopK(s, limit) ==>
      |TopK(s, limit)| == limit && forall i :: 0 <= i < limit ==> TopK(s, limit)[i].score >= e.score
    ensures Distinct(Keys(s)) ==> Distinct(Keys(TopK(s, limit)))
  {
    var sorted := SortDesc(s);
    var r := TopK(s, limit);
    SortDescMembers(s);
    forall i | 0 <= i < |r| ensures r[i] in s {
      assert r[i] == sorted[i];
    }
    forall e | e in s && e !in r
      ensures |r| == limit && forall i :: 0 <= i < limit ==> r[i].score >= e.score
    {
      var j :| 0 <= j < |sorted| && sorted[j] == e;
      assert j >= |r|;
    }
    if Distinct(Keys(s)) {
      SortDescDistinct(s);
      assert Keys(r) == Keys(sorted)[..|r|];
    }
  }

  /** The sorted sequence has the input's length and elements, best first. */
  lemma SortDescMembers(s: seq<Entry>)
    ensures |SortDesc(s)| == |s|
    ensures SortedDesc(SortDesc(s))
    ensures forall e :: e in SortDesc(s) <==> e in s
  {
    SortDescCorrect(s);
    SortDescLength(s);
    forall e ensures e in SortDesc(s) <==> e in s {
      assert e in SortDesc(s) <==> e in multiset(SortDesc(s));
      assert e in s <==> e in multiset(s);
    }
  }

  /** Keep the first occurrence of every value, in order (array_unique()). */
  function Dedup(s: seq<int>): (r: seq<int>)
    ensures Distinct(r)
    ensures forall x :: x in r <==> x in s
    ensures |r| <= |s|
  {
    if s == [] then []
    else
      var p := Dedup(s[..|s| - 1]);
      if s[|s| - 1] in p then p else p + [s[|s| - 1]]
  }

  /** A sequence without repetitions is its own Dedup. */
  lemma {:induction false} DedupOfDistinct(s: seq<int>)
    requires Distinct(s)
    ensures Dedup(s) == s
  {
    if s != [] {
      DedupOfDistinct(s[..|s| - 1]);
    }
  }

  /** Keeping first occurrences leaves a repetition-free front part unchanged (array_unique(array_merge($a, $b))). */
  lemma {:induction false} DedupKeepsPrefix(a: seq<int>, b: seq<int>)
    requires Distinct(a)
    ensures |Dedup(a + b)| >= |a|
    ensures Dedup(a + b)[..|a|] == a
    decreases |b|
  {
    if b == [] {
      assert a + b == a;
      DedupOfDistinct(a);
    } else {
      var s := a + b;
      assert s[..|s| - 1] == a + b[..|b| - 1];
      DedupKeepsPrefix(a, b[..|b| - 1]);
    }
  }
}
