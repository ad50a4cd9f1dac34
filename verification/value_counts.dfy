/**
 `Series.value_counts`: a listing of (value, occurrences) entries, one per
 distinct value, together with the descending sort applied to it and
 `Series.mode`.
 */
module ValueCounts {
  import opened Wrappers
  import opened Strings
  import opened Sequences

  /** One line of a value-count listing. */
  type Entry = (string, nat)

  /** The values that have an entry. */
  function Keys(l: seq<Entry>): set<string>
  {
    if |l| == 0 then {} else {l[0].0} + Keys(l[1..])
  }

  /** No value has two entries. */
  predicate DistinctKeys(l: seq<Entry>)
  {
    |l| == 0 || (l[0].0 !in Keys(l[1..]) && DistinctKeys(l[1..]))
  }

  /** Every entry counts at least one occurrence. */
  predicate Positive(l: seq<Entry>)
  {
    forall i :: 0 <= i < |l| ==> l[i].1 > 0
  }

  /** The count listed for `k` (the first entry's), or 0 when `k` has none. */
  function Lookup(l: seq<Entry>, k: string): nat
  {
    if |l| == 0 then 0 else if l[0].0 == k then l[0].1 else Lookup(l[1..], k)
  }

  /** Sum of all listed counts. */
  function Total(l: seq<Entry>): nat
  {
    if |l| == 0 then 0 else l[0].1 + Total(l[1..])
  }

  /** Counts never increase along the listing. */
  predicate NonIncreasing(l: seq<Entry>)
  {
    forall i, j :: 0 <= i < j < |l| ==> l[j].1 <= l[i].1
  }

  lemma {:induction false} KeysIndex(l: seq<Entry>, k: string)
    ensures k in Keys(l) <==> exists i :: 0 <= i < |l| && l[i].0 == k
  {
    if |l| > 0 {
      KeysIndex(l[1..], k);
      if k in Keys(l[1..]) {
        var i :| 0 <= i < |l[1..]| && l[1..][i].0 == k;
        assert l[i + 1].0 == k;
      }
      if exists i :: 0 <= i < |l| && l[i].0 == k {
        var i :| 0 <= i < |l| && l[i].0 == k;
        if i > 0 {
          assert l[1..][i - 1].0 == k;
        }
      }
    }
  }

  /** The recursive notion of distinct keys in index form. */
  lemma {:induction false} DistinctKeysIndices(l: seq<Entry>)
    requires DistinctKeys(l)
    ensures forall i, j :: 0 <= i < j < |l| ==> l[i].0 != l[j].0
  {
    if |l| > 0 {
      DistinctKeysIndices(l[1..]);
      forall j | 0 < j < |l|
        ensures l[0].0 != l[j].0
      {
        KeysIndex(l[1..], l[j].0);
        assert l[1..][j - 1].0 == l[j].0;
      }
      forall i, j | 0 < i < j < |l|
        ensures l[i].0 != l[j].0
      {
        assert l[i] == l[1..][i - 1] && l[j] == l[1..][j - 1];
      }
    }
  }

  /** With distinct keys, looking up an entry's value finds that entry's count. */
  lemma {:induction false} LookupEntry(l: seq<Entry>)
    requires DistinctKeys(l)
    ensures forall i :: 0 <= i < |l| ==> Lookup(l, l[i].0) == l[i].1
  {
    if |l| > 0 {
      LookupEntry(l[1..]);
      forall i | 0 < i < |l|
        ensures Lookup(l, l[i].0) == l[i].1
      {
        assert l[i] == l[1..][i - 1];
        KeysIndex(l[1..], l[i].0);
      }
    }
  }

  /** Records one more occurrence of `x`: its entry grows by one, or a new entry is appended. */
  function Bump(l: seq<Entry>, x: string): (r: seq<Entry>)
    ensures Keys(r) == Keys(l) + {x}
    ensures DistinctKeys(l) ==> DistinctKeys(r)
    ensures Positive(l) ==> Positive(r)
    ensures forall k :: Lookup(r, k) == Lookup(l, k) + (if k == x then 1 else 0)
    ensures Total(r) == Total(l) + 1
  {
    if |l| == 0 then [(x, 1)]
    else if l[0].0 == x then [(x, l[0].1 + 1)] + l[1..]
    else
      var rest := Bump(l[1..], x);
      assert ([l[0]] + rest)[1..] == rest;
      [l[0]] + rest
  }

  /**
   `value_counts` in first-occurrence order: one entry per distinct value of
   `xs`, listing exactly how often that value occurs.
   */
  function Counts(xs: seq<string>): (r: seq<Entry>)
    ensures DistinctKeys(r)
    ensures Positive(r)
    ensures forall k :: Lookup(r, k) == multiset(xs)[k]
    ensures forall k :: k in Keys(r) <==> k in xs
    ensures Total(r) == |xs|
  {
    if |xs| == 0 then []
    else
      var front, last := xs[..|xs| - 1], xs[|xs| - 1];
      assert xs == front + [last];
      var r := Bump(Counts(front), last);
      assert forall k :: k in xs <==> k in front || k == last;
      r
  }

  /** Every entry of `Counts(xs)` names a value of `xs` and lists its number of occurrences. */
  lemma CountsEntries(xs: seq<string>)
    ensures forall i :: 0 <= i < |Counts(xs)| ==>
      Counts(xs)[i].0 in xs && Counts(xs)[i].1 == multiset(xs)[Counts(xs)[i].0]
  {
    var r := Counts(xs);
    LookupEntry(r);
    forall i | 0 <= i < |r| ensures r[i].0 in xs {
      KeysIndex(r, r[i].0);
    }
  }

  /**
   Inserts `e` before the first entry whose count is at most its own; in a
   listing sorted by descending count, that is after every entry with a
   strictly larger count.
   */
  function InsertDescending(e: Entry, s: seq<Entry>): (r: seq<Entry>)
    ensures multiset(r) == multiset(s) + multiset{e}
    ensures Keys(r) == Keys(s) + {e.0}
    ensures DistinctKeys(s) && e.0 !in Keys(s) ==> DistinctKeys(r)
    ensures Total(r) == Total(s) + e.1
  {
    if |s| == 0 || s[0].1 <= e.1 then
      assert ([e] + s)[1..] == s;
      [e] + s
    else
      var rest := InsertDescending(e, s[1..]);
      assert ([s[0]] + rest)[1..] == rest;
      assert s == [s[0]] + s[1..];
      [s[0]] + rest
  }

  /** A bound on every count survives insertion of an entry within the bound. */
  lemma {:induction false} InsertDescendingBound(e: Entry, s: seq<Entry>, b: nat)
    requires e.1 <= b
    requires forall i :: 0 <= i < |s| ==> s[i].1 <= b
    ensures forall i :: 0 <= i < |InsertDescending(e, s)| ==> InsertDescending(e, s)[i].1 <= b
  {
    if |s| > 0 && e.1 < s[0].1 {
      InsertDescendingBound(e, s[1..], b);
    }
  }

  /** Inserting into a listing sorted by descending count keeps it sorted. */
  lemma {:induction false} InsertDescendingSorted(e: Entry, s: seq<Entry>)
    requires NonIncreasing(s)
    ensures NonIncreasing(InsertDescending(e, s))
  {
    if |s| > 0 && e.1 < s[0].1 {
      var rest := InsertDescending(e, s[1..]);
      InsertDescendingSorted(e, s[1..]);
      InsertDescendingBound(e, s[1..], s[0].1);
      var r := [s[0]] + rest;
      assert InsertDescending(e, s) == r;
      forall i, j | 0 <= i < j < |r| ensures r[j].1 <= r[i].1 {
        assert r[j] == rest[j - 1];
        if i > 0 {
          assert r[i] == rest[i - 1];
        }
      }
    }
  }

  /** `sort_values(ascending=False)`: a stable insertion sort by count, largest first. */
  function SortDescending(l: seq<Entry>): (r: seq<Entry>)
    ensures multiset(r) == multiset(l)
    ensures NonIncreasing(r)
    ensures Keys(r) == Keys(l)
    ensures DistinctKeys(l) ==> DistinctKeys(r)
    ensures Total(r) == Total(l)
  {
    if |l| == 0 then []
    else
      assert l == [l[0]] + l[1..];
      InsertDescendingSorted(l[0], SortDescending(l[1..]));
      InsertDescending(l[0], SortDescending(l[1..]))
  }

  /**
   The entry `mode()[0]` reports: a greatest count, and among entries with
   that count the value that sorts first.
   */
  function BestEntry(l: seq<Entry>): (e: Entry)
    requires |l| > 0
    ensures e in l
    ensures forall i :: 0 <= i < |l| ==> l[i].1 <= e.1
    ensures forall i :: 0 <= i < |l| && l[i].1 == e.1 ==> LexLe(e.0, l[i].0)
  {
    if |l| == 1 then
      LexLeReflexive(l[0].0);
      l[0]
    else
      var b := BestEntry(l[1..]);
      if b.1 < l[0].1 then
        LexLeReflexive(l[0].0);
        l[0]
      else if l[0].1 < b.1 then
        b
      else if LexLe(l[0].0, b.0) then
        LexLeReflexive(l[0].0);
        forall i | 1 <= i < |l| && l[i].1 == l[0].1
          ensures LexLe(l[0].0, l[i].0)
        {
          assert l[i] == l[1..][i - 1];
          LexLeTransitive(l[0].0, b.0, l[i].0);
        }
        l[0]
      else
        LexLeTotal(l[0].0, b.0);
        b
  }

  /**
   `Series.mode()[0]` of a non-empty series: a value of `xs` occurring at
   least as often as any other, and the first in string order among those
   occurring equally often.
   */
  function Mode(xs: seq<string>): (m: string)
    requires |xs| > 0
    ensures m in xs
    ensures forall i :: 0 <= i < |xs| ==> multiset(xs)[xs[i]] <= multiset(xs)[m]
    ensures forall i :: 0 <= i < |xs| && multiset(xs)[xs[i]] == multiset(xs)[m] ==> LexLe(m, xs[i])
  {
    var l := Counts(xs);
    KeysIndex(l, xs[0]);
    var e := BestEntry(l);
    CountsEntries(xs);
    forall i | 0 <= i < |xs|
      ensures multiset(xs)[xs[i]] <= multiset(xs)[e.0]
      ensures multiset(xs)[xs[i]] == multiset(xs)[e.0] ==> LexLe(e.0, xs[i])
    {
      KeysIndex(l, xs[i]);
    }
    e.0
  }

  /**
   `num / den * 100` on two value-count series, aligned on `den`'s values: a
   value missing from `num` gives NaN (`None`). (Values of `num` missing from
   `den` would give NaN as well, so leaving them out changes nothing once NaN
   is dropped.)
   */
  function Divide(num: seq<Entry>, den: seq<Entry>): (r: seq<(string, Option<real>)>)
    requires Positive(den)
    ensures |r| == |den|
    ensures forall i :: 0 <= i < |den| ==> r[i].0 == den[i].0
    ensures forall i :: 0 <= i < |den| ==> (r[i].1.Some? <==> den[i].0 in Keys(num))
    ensures forall i :: 0 <= i < |den| && r[i].1.Some? ==>
      IsPercentOf(r[i].1.value, Lookup(num, den[i].0), den[i].1)
  {
    seq(|den|, i requires 0 <= i < |den| =>
      (den[i].0,
       if den[i].0 in Keys(num)
       then QuotientTimes(100 * Lookup(num, den[i].0), den[i].1);
         Some((100 * Lookup(num, den[i].0)) as real / den[i].1 as real)
       else None))
  }

  /** `dropna`: the entries that carry a number, in order. */
  function DropMissing(l: seq<(string, Option<real>)>): (r: seq<(string, real)>)
    ensures |r| <= |l|
    ensures forall i :: 0 <= i < |r| ==> (r[i].0, Some(r[i].1)) in l
    ensures forall i :: 0 <= i < |l| && l[i].1.Some? ==> (l[i].0, l[i].1.value) in r
  {
    if |l| == 0 then []
    else
      var front := DropMissing(l[..|l| - 1]);
      assert forall e :: e in l[..|l| - 1] ==> e in l;
      match l[|l| - 1].1
      case Some(v) => front + [(l[|l| - 1].0, v)]
      case None => front
  }

  /** Dropping entries keeps distinct names distinct. */
  lemma {:induction false} DropMissingDistinct(l: seq<(string, Option<real>)>)
    requires forall i, j :: 0 <= i < j < |l| ==> l[i].0 != l[j].0
    ensures forall i, j :: 0 <= i < j < |DropMissing(l)| ==> DropMissing(l)[i].0 != DropMissing(l)[j].0
  {
    if |l| > 0 {
      var init := l[..|l| - 1];
      DropMissingDistinct(init);
      var front := DropMissing(init);
      var r := DropMissing(l);
      forall i, j | 0 <= i < j < |r|
        ensures r[i].0 != r[j].0
      {
        if j == |front| {
          assert (r[i].0, Some(r[i].1)) in init;
          var k :| 0 <= k < |init| && init[k] == (r[i].0, Some(r[i].1));
          assert l[k].0 == r[i].0;
        } else {
          assert r[i] == front[i] && r[j] == front[j];
        }
      }
    }
  }

  /**
   Every entry of the divided and NaN-dropped listing names a value listed in
   both series, and is that value's numerator count as a percentage of its
   denominator count.
   */
  lemma DivideDropEntries(num: seq<Entry>, den: seq<Entry>)
    requires Positive(den) && DistinctKeys(den)
    ensures forall i :: 0 <= i < |DropMissing(Divide(num, den))| ==>
      DropMissing(Divide(num, den))[i].0 in Keys(num)
      && DropMissing(Divide(num, den))[i].0 in Keys(den)
      && IsPercentOf(DropMissing(Divide(num, den))[i].1,
                     Lookup(num, DropMissing(Divide(num, den))[i].0),
                     Lookup(den, DropMissing(Divide(num, den))[i].0))
  {
    var d := Divide(num, den);
    var r := DropMissing(d);
    LookupEntry(den);
    forall i | 0 <= i < |r|
      ensures r[i].0 in Keys(num) && r[i].0 in Keys(den)
      ensures IsPercentOf(r[i].1, Lookup(num, r[i].0), Lookup(den, r[i].0))
    {
      assert (r[i].0, Some(r[i].1)) in d;
      var j :| 0 <= j < |d| && d[j] == (r[i].0, Some(r[i].1));
      KeysIndex(den, r[i].0);
    }
  }

  /** Every value listed in both series keeps an entry after division and dropping NaN. */
  lemma DivideDropCovers(num: seq<Entry>, den: seq<Entry>, k: string)
    requires Positive(den)
    requires k in Keys(num) && k in Keys(den)
    ensures exists j :: 0 <= j < |DropMissing(Divide(num, den))| && DropMissing(Divide(num, den))[j].0 == k
  {
    var d := Divide(num, den);
    var r := DropMissing(d);
    KeysIndex(den, k);
    var j :| 0 <= j < |den| && den[j].0 == k;
    assert (k, d[j].1.value) in r;
    var q :| 0 <= q < |r| && r[q] == (k, d[j].1.value);
  }
}
