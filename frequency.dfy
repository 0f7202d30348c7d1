/**
  Counting, frequency modes and grouped counts over a column of values: the
  pandas operations `(col == v).sum()`, `col.mode()[0]` and
  `df.groupby(col)[col].count().sort_values(ascending=False)`.
 */
module Frequency {
  import opened Orders
  import opened Wrappers

  /** Number of positions of `s` holding `v`: `(col == v).sum()`. */
  function Count<T(==)>(s: seq<T>, v: T): (n: nat)
    ensures n <= |s|
    ensures n > 0 <==> v in s
  {
    if s == [] then 0 else (if s[0] == v then 1 else 0) + Count(s[1..], v)
  }

  lemma {:induction false} CountConcat<T>(a: seq<T>, b: seq<T>, v: T)
    ensures Count(a + b, v) == Count(a, v) + Count(b, v)
  {
    if a != [] {
      assert (a + b)[0] == a[0] && (a + b)[1..] == a[1..] + b;
      CountConcat(a[1..], b, v);
    } else {
      assert a + b == b;
    }
  }

  /** Count agrees with the multiplicity of `v` in the multiset of `s`. */
  lemma {:induction false} CountIsMultiplicity<T>(s: seq<T>, v: T)
    ensures Count(s, v) == multiset(s)[v]
  {
    if s != [] {
      assert s == [s[0]] + s[1..];
      CountIsMultiplicity(s[1..], v);
    }
  }

  /** A value held by every position is counted on every position. */
  lemma {:induction false} CountOfConstant<T>(s: seq<T>, v: T)
    requires forall i :: 0 <= i < |s| ==> s[i] == v
    ensures Count(s, v) == |s|
    ensures forall x :: x != v ==> Count(s, x) == 0
  {
    if s != [] {
      CountOfConstant(s[1..], v);
    }
  }

  /**
    The values of a column with empty (NaN) cells dropped, in order: each
    value as often as the column holds it, one entry per non-empty cell.
   */
  function Present<T(==,!new)>(cells: seq<Option<T>>): (s: seq<T>)
    ensures forall v :: Count(s, v) == Count(cells, Some(v))
    ensures |s| == |cells| - Count(cells, None)
  {
    if cells == [] then []
    else
      var rest := Present(cells[1..]);
      match cells[0]
      case Some(v) =>
        assert ([v] + rest)[1..] == rest;
        [v] + rest
      case None => rest
  }

  /** The outcome of a mode query: the chosen value and how often it occurs. */
  datatype Popular<T> = Popular(value: T, count: nat)

  /**
    `a` is at least as good a mode candidate as `b`: it occurs more often,
    or equally often and it is not larger.
   */
  predicate Beats<T(==)>(s: seq<T>, a: T, b: T, le: (T, T) -> bool)
  {
    Count(s, b) < Count(s, a) || (Count(s, b) == Count(s, a) && le(a, b))
  }

  /**
    `m` is the mode of `s` as `s.mode()[0]` chooses it: a value of `s` that
    occurs at least as often as any other, and the smallest among the values
    that occur that often.
   */
  ghost predicate IsMode<T>(s: seq<T>, m: T, le: (T, T) -> bool)
  {
    m in s && forall x :: x in s ==> Beats(s, m, x, le)
  }

  lemma BeatsTransitive<T(!new)>(s: seq<T>, le: (T, T) -> bool)
    requires TotalOrder(le)
    ensures forall a, b, c :: Beats(s, a, b, le) && Beats(s, b, c, le) ==> Beats(s, a, c, le)
  {
  }

  /** The better of two candidates. */
  function Preferred<T(==,!new)>(s: seq<T>, a: T, b: T, le: (T, T) -> bool): (m: T)
    requires TotalOrder(le)
    ensures m == a || m == b
    ensures Beats(s, m, a, le) && Beats(s, m, b, le)
  {
    if Beats(s, a, b, le) then a else b
  }

  /** The best candidate of a non-empty list of candidates. */
  function BestOf<T(==,!new)>(s: seq<T>, candidates: seq<T>, le: (T, T) -> bool): (m: T)
    requires |candidates| > 0 && TotalOrder(le)
    ensures m in candidates
    ensures forall x :: x in candidates ==> Beats(s, m, x, le)
  {
    if |candidates| == 1 then candidates[0]
    else
      var rest := BestOf(s, candidates[1..], le);
      BeatsTransitive(s, le);
      assert forall x :: x in candidates ==> x == candidates[0] || x in candidates[1..];
      Preferred(s, candidates[0], rest, le)
  }

  /**
    `s.mode()[0]` with its count `(s == mode).sum()`. pandas raises on an
    empty column, so the callers rule that case out first.
   */
  function MostCommon<T(==,!new)>(s: seq<T>, le: (T, T) -> bool): (p: Popular<T>)
    requires |s| > 0 && TotalOrder(le)
    ensures IsMode(s, p.value, le)
    ensures p.count == Count(s, p.value) && p.count > 0
  {
    var m := BestOf(s, s, le);
    Popular(m, Count(s, m))
  }

  /** There is only one mode: the tie-break is deterministic. */
  lemma ModeIsUnique<T(!new)>(s: seq<T>, a: T, b: T, le: (T, T) -> bool)
    requires TotalOrder(le) && IsMode(s, a, le) && IsMode(s, b, le)
    ensures a == b
  {
    assert Beats(s, a, b, le) && Beats(s, b, a, le);
  }

  /** A column holding one value throughout has that value as its mode, counted on every row. */
  lemma ModeOfConstant<T(!new)>(s: seq<T>, v: T, le: (T, T) -> bool)
    requires |s| > 0 && TotalOrder(le)
    requires forall i :: 0 <= i < |s| ==> s[i] == v
    ensures MostCommon(s, le) == Popular(v, |s|)
  {
    CountOfConstant(s, v);
    var p := MostCommon(s, le);
    assert s[0] == v;
    assert p.value in s;
  }

  // ---------------------------------------------------------------------
  // Sum, minimum and maximum of a numeric column.

  /** `col.sum()`: a column of non-negative values has a non-negative sum. */
  function Sum(s: seq<int>): (total: int)
    ensures (forall i :: 0 <= i < |s| ==> 0 <= s[i]) ==> 0 <= total
  {
    if s == [] then 0
    else
      assert forall i :: 0 <= i < |s[1..]| ==> s[1..][i] == s[i + 1];
      s[0] + Sum(s[1..])
  }

  lemma {:induction false} SumConcat(a: seq<int>, b: seq<int>)
    ensures Sum(a + b) == Sum(a) + Sum(b)
  {
    if a != [] {
      assert (a + b)[0] == a[0] && (a + b)[1..] == a[1..] + b;
      SumConcat(a[1..], b);
    } else {
      assert a + b == b;
    }
  }

  /** `col.min()` on a non-empty column. */
  function Min(s: seq<int>): (m: int)
    requires |s| > 0
    ensures m in s
    ensures forall x :: x in s ==> m <= x
  {
    if |s| == 1 then s[0]
    else
      var rest := Min(s[1..]);
      assert forall x :: x in s ==> x == s[0] || x in s[1..];
      if s[0] <= rest then s[0] else rest
  }

  /** `col.max()` on a non-empty column. */
  function Max(s: seq<int>): (m: int)
    requires |s| > 0
    ensures m in s
    ensures forall x :: x in s ==> x <= m
  {
    if |s| == 1 then s[0]
    else
      var rest := Max(s[1..]);
      assert forall x :: x in s ==> x == s[0] || x in s[1..];
      if s[0] >= rest then s[0] else rest
  }

  /** A lower bound of every value, times the number of values, is at most the sum. */
  lemma {:induction false} SumAtLeast(s: seq<int>, lo: int)
    requires forall x :: x in s ==> lo <= x
    ensures |s| * lo <= Sum(s)
  {
    if s != [] {
      assert forall x :: x in s[1..] ==> x in s;
      SumAtLeast(s[1..], lo);
      assert s[0] in s && |s[1..]| == |s| - 1;
      assert |s| * lo == lo + (|s| - 1) * lo;
    }
  }

  /** An upper bound of every value, times the number of values, is at least the sum. */
  lemma {:induction false} SumAtMost(s: seq<int>, hi: int)
    requires forall x :: x in s ==> x <= hi
    ensures Sum(s) <= |s| * hi
  {
    if s != [] {
      assert forall x :: x in s[1..] ==> x in s;
      SumAtMost(s[1..], hi);
      assert s[0] in s && |s[1..]| == |s| - 1;
      assert |s| * hi == hi + (|s| - 1) * hi;
    }
  }

  // ---------------------------------------------------------------------
  // Grouped counts, largest group first.

  /** One row of `groupby(col)[col].count()`: a distinct value and its number of rows. */
  datatype Group<K> = Group(key: K, size: nat)

  function TotalSize<K>(r: seq<Group<K>>): nat
  {
    if r == [] then 0 else r[0].size + TotalSize(r[1..])
  }

  ghost function KeySet<K>(r: seq<Group<K>>): set<K>
  {
    set g | g in r :: g.key
  }

  ghost predicate DistinctKeys<K>(r: seq<Group<K>>)
  {
    forall i, j :: 0 <= i < j < |r| ==> r[i].key != r[j].key
  }

  ghost predicate NonIncreasing<K>(r: seq<Group<K>>)
  {
    forall i, j :: 0 <= i < j < |r| ==> r[j].size <= r[i].size
  }

  ghost predicate NoDuplicates<K>(d: seq<K>)
  {
    forall i, j :: 0 <= i < j < |d| ==> d[i] != d[j]
  }

  /** The distinct values of `s`. */
  function Distinct<K(==,!new)>(s: seq<K>): (d: seq<K>)
    ensures forall k :: k in d <==> k in s
    ensures NoDuplicates(d)
  {
    if s == [] then []
    else
      var rest := Distinct(s[1..]);
      if s[0] in rest then rest else [s[0]] + rest
  }

  /** One group per value of `keys`, sized by its count in `s`. */
  function Tally<K(==)>(s: seq<K>, keys: seq<K>): (r: seq<Group<K>>)
    ensures |r| == |keys|
    ensures forall i :: 0 <= i < |r| ==> r[i] == Group(keys[i], Count(s, keys[i]))
  {
    if keys == [] then [] else [Group(keys[0], Count(s, keys[0]))] + Tally(s, keys[1..])
  }

  /** Inserts `g` in front of the first group not larger than it. */
  function Insert<K(!new)>(g: Group<K>, r: seq<Group<K>>): (r': seq<Group<K>>)
    ensures |r'| == |r| + 1
    ensures forall x :: x in r' <==> x == g || x in r
    ensures TotalSize(r') == g.size + TotalSize(r)
    ensures multiset(r') == multiset{g} + multiset(r)
  {
    if r == [] || g.size >= r[0].size then [g] + r
    else
      assert forall x :: x in r ==> x == r[0] || x in r[1..];
      assert r == [r[0]] + r[1..];
      [r[0]] + Insert(g, r[1..])
  }

  lemma {:induction false} InsertKeepsOrder<K(!new)>(g: Group<K>, r: seq<Group<K>>)
    requires NonIncreasing(r)
    ensures NonIncreasing(Insert(g, r))
  {
    if r != [] && g.size < r[0].size {
      var tail := Insert(g, r[1..]);
      InsertKeepsOrder(g, r[1..]);
      assert Insert(g, r) == [r[0]] + tail;
      forall j | 0 <= j < |tail| ensures tail[j].size <= r[0].size {
        assert tail[j] in tail;
        if tail[j] != g {
          var k :| 0 <= k < |r[1..]| && r[1..][k] == tail[j];
          assert r[k + 1] == tail[j];
        }
      }
    }
  }

  lemma {:induction false} InsertKeepsKeysDistinct<K(!new)>(g: Group<K>, r: seq<Group<K>>)
    requires DistinctKeys(r) && g.key !in KeySet(r)
    ensures DistinctKeys(Insert(g, r))
  {
    var r' := Insert(g, r);
    if r == [] || g.size >= r[0].size {
      assert r' == [g] + r;
      forall j | 1 <= j < |r'| ensures r'[0].key != r'[j].key {
        assert r'[j] in r;
      }
    } else {
      InsertKeepsKeysDistinct(g, r[1..]) by {
        forall x | x in r[1..] ensures x in r { }
      }
      var tail := Insert(g, r[1..]);
      assert r' == [r[0]] + tail;
      HeadKeyNotInserted(g, r);
      forall j | 0 < j < |r'| ensures r[0].key != r'[j].key {
        assert r'[j] in tail;
      }
    }
  }

  lemma HeadKeyNotInserted<K(!new)>(g: Group<K>, r: seq<Group<K>>)
    requires r != [] && DistinctKeys(r) && g.key !in KeySet(r)
    ensures forall x :: x in Insert(g, r[1..]) ==> x.key != r[0].key
  {
    forall x | x in Insert(g, r[1..]) ensures x.key != r[0].key {
      if x != g {
        var k :| 0 <= k < |r[1..]| && r[1..][k] == x;
        assert r[k + 1] == x;
      } else {
        assert r[0] in r;
      }
    }
  }

  /** Sorts groups largest first, a permutation of `r` (an insertion sort; equal sizes keep no particular order). */
  function SortBySizeDescending<K(!new)>(r: seq<Group<K>>): (r': seq<Group<K>>)
    ensures |r'| == |r|
    ensures forall x :: x in r' <==> x in r
    ensures TotalSize(r') == TotalSize(r)
    ensures NonIncreasing(r')
    ensures multiset(r') == multiset(r)
  {
    if r == [] then []
    else
      assert forall x :: x in r ==> x == r[0] || x in r[1..];
      assert r == [r[0]] + r[1..];
      var rest := SortBySizeDescending(r[1..]);
      InsertKeepsOrder(r[0], rest);
      Insert(r[0], rest)
  }

  lemma {:induction false} SortKeepsKeysDistinct<K(!new)>(r: seq<Group<K>>)
    requires DistinctKeys(r)
    ensures DistinctKeys(SortBySizeDescending(r))
  {
    if r != [] {
      var rest := SortBySizeDescending(r[1..]);
      SortKeepsKeysDistinct(r[1..]);
      assert r[0].key !in KeySet(rest) by {
        forall j | 0 <= j < |r[1..]| ensures r[1..][j].key != r[0].key {
          assert r[1..][j] == r[j + 1];
        }
        assert forall x :: x in rest ==> x in r[1..];
      }
      InsertKeepsKeysDistinct(r[0], rest);
    }
  }

  /** Counting the rows of `s` group by group over a list of all its values, each once, gives |s|. */
  lemma {:induction false} TallyCoversAllRows<K>(s: seq<K>, keys: seq<K>)
    requires NoDuplicates(keys)
    requires forall k :: k in s ==> k in keys
    ensures TotalSize(Tally(s, keys)) == |s|
  {
    if s == [] {
      TallyOfNothing(keys);
    } else {
      TallyOfCons(s[0], s[1..], keys);
      assert s == [s[0]] + s[1..];
      TallyCoversAllRows(s[1..], keys);
      assert s[0] in keys;
      CountOfDistinct(keys, s[0]);
    }
  }

  lemma {:induction false} TallyOfNothing<K>(keys: seq<K>)
    ensures TotalSize(Tally([], keys)) == 0
  {
    if keys != [] {
      TallyOfNothing(keys[1..]);
    }
  }

  lemma {:induction false} TallyOfCons<K>(x: K, t: seq<K>, keys: seq<K>)
    ensures TotalSize(Tally([x] + t, keys)) == Count(keys, x) + TotalSize(Tally(t, keys))
  {
    if keys != [] {
      assert ([x] + t)[1..] == t;
      TallyOfCons(x, t, keys[1..]);
    }
  }

  lemma {:induction false} CountOfDistinct<K>(d: seq<K>, x: K)
    requires NoDuplicates(d) && x in d
    ensures Count(d, x) == 1
  {
    if d[0] == x {
      assert x !in d[1..] by {
        forall j | 0 <= j < |d[1..]| ensures d[1..][j] != x {
          assert d[1..][j] == d[j + 1];
        }
      }
    } else {
      CountOfDistinct(d[1..], x);
    }
  }

  /** Every value of `s` is the key of some group of `r`, and every group is sized by its count, when `r` holds the tally of all values. */
  lemma TallyPermutedFacts<K(!new)>(s: seq<K>, d: seq<K>, t: seq<Group<K>>, r: seq<Group<K>>)
    requires forall k :: k in d <==> k in s
    requires t == Tally(s, d)
    requires forall x :: x in r <==> x in t
    ensures forall i :: 0 <= i < |r| ==> r[i].size == Count(s, r[i].key)
    ensures forall k :: k in KeySet(r) <==> k in s
  {
    assert forall i :: 0 <= i < |r| ==> r[i] in t;
    forall k | k in s ensures k in KeySet(r) {
      var i :| 0 <= i < |d| && d[i] == k;
      assert t[i] in r;
    }
  }

  /**
    `groupby(col)[col].count().sort_values(ascending=False)`: one group per
    distinct value of `s`, each sized by the number of rows holding it,
    largest first, the sizes adding up to the number of rows.
   */
  function Breakdown<K(==,!new)>(s: seq<K>): (r: seq<Group<K>>)
    ensures forall i :: 0 <= i < |r| ==> r[i].size == Count(s, r[i].key)
    ensures forall k :: k in KeySet(r) <==> k in s
    ensures DistinctKeys(r)
    ensures NonIncreasing(r)
    ensures TotalSize(r) == |s|
  {
    var d := Distinct(s);
    var t := Tally(s, d);
    TallyCoversAllRows(s, d);
    SortKeepsKeysDistinct(t);
    var r := SortBySizeDescending(t);
    TallyPermutedFacts(s, d, t, r);
    r
  }
}
