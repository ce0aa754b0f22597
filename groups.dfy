/** Pandas aggregation over one grouping: `groupby(key)[col].count()`,
    `groupby(key)[col].nunique()`, `value_counts()`, a descending
    `sort_values`, and the `head(n)` / `nlargest(n)` prefixes of it.
    A grouped table is seen as its entries: the group key of each row
    paired with the row's cell in the aggregated column. */
module Groups {
  import opened Values
  import opened Seqs

  /** The group keys of the entries, in row order. */
  function Keys<K>(es: seq<(K, Value)>): (r: seq<K>)
    ensures |r| == |es|
    ensures forall k :: 0 <= k < |es| ==> r[k] == es[k].0
  {
    if es == [] then []
    else Keys(es[..|es| - 1]) + [es[|es| - 1].0]
  }

  /** The groups, each once, in the order of their first row. pandas'
      `groupby` lists them in key order instead; after the descending sort
      the two differ only in the order of groups with equal counts
      (`SortDescIgnoresOrder`). */
  function GroupKeys<K(==)>(es: seq<(K, Value)>): (gs: seq<K>)
    ensures Distinct(gs)
    ensures forall i :: 0 <= i < |gs| ==> gs[i] in Keys(es)
    ensures forall k :: 0 <= k < |es| ==> es[k].0 in gs
  {
    Dedup(Keys(es))
  }

  /** The number of rows of group `g`. */
  function Size<K(==)>(es: seq<(K, Value)>, g: K): nat {
    if es == [] then 0
    else Size(es[..|es| - 1], g) + (if es[|es| - 1].0 == g then 1 else 0)
  }

  /** The non-missing cells of group `g`, in row order: what `count()` and
      `nunique()` look at, since both skip NaN. */
  function Members<K(==)>(es: seq<(K, Value)>, g: K): (r: seq<Value>)
    ensures |r| <= Size(es, g)
    ensures forall v :: v in r ==> v != Missing
  {
    if es == [] then []
    else
      var last := es[|es| - 1];
      Members(es[..|es| - 1], g) + (if last.0 == g && last.1 != Missing then [last.1] else [])
  }

  /** The number of entries whose cell is not missing. */
  function Present<K>(es: seq<(K, Value)>): nat {
    if es == [] then 0
    else Present(es[..|es| - 1]) + (if es[|es| - 1].1 != Missing then 1 else 0)
  }

  /** `(g, count)` for every group of `gs`. */
  function CountsOver<K(==)>(gs: seq<K>, es: seq<(K, Value)>): (r: seq<(K, int)>)
    ensures |r| == |gs|
    ensures forall i :: 0 <= i < |gs| ==> r[i] == (gs[i], |Members(es, gs[i])|)
  {
    if gs == [] then []
    else CountsOver(gs[..|gs| - 1], es) + [(gs[|gs| - 1], |Members(es, gs[|gs| - 1])|)]
  }

  /** `(g, nunique)` for every group of `gs`. */
  function DistinctCountsOver<K(==)>(gs: seq<K>, es: seq<(K, Value)>): (r: seq<(K, int)>)
    ensures |r| == |gs|
    ensures forall i :: 0 <= i < |gs| ==> r[i] == (gs[i], |Dedup(Members(es, gs[i]))|)
  {
    if gs == [] then []
    else DistinctCountsOver(gs[..|gs| - 1], es) + [(gs[|gs| - 1], |Dedup(Members(es, gs[|gs| - 1]))|)]
  }

  /** `groupby(key)[col].count()`, one pair per group. */
  function GroupCount<K(==)>(es: seq<(K, Value)>): seq<(K, int)> {
    CountsOver(GroupKeys(es), es)
  }

  /** `groupby(key)[col].nunique()`, one pair per group. */
  function GroupNUnique<K(==)>(es: seq<(K, Value)>): seq<(K, int)> {
    DistinctCountsOver(GroupKeys(es), es)
  }

  /** The sum of the counts. */
  function Total<K>(xs: seq<(K, int)>): int {
    if xs == [] then 0 else xs[0].1 + Total(xs[1..])
  }

  // ---------------------------------------------------------------------
  // Counting

  /** When no cell is missing, `count()` of a group is its number of rows. */
  lemma {:induction false} MembersOfComplete<K>(es: seq<(K, Value)>, g: K)
    requires forall k :: 0 <= k < |es| ==> es[k].1 != Missing
    ensures |Members(es, g)| == Size(es, g)
  {
    if es != [] {
      MembersOfComplete(es[..|es| - 1], g);
    }
  }

  /** For every group, `nunique()` is at most `count()`, which is at most
      the group's number of rows. */
  lemma DistinctAtMostCount<K>(es: seq<(K, Value)>, g: K)
    ensures |Dedup(Members(es, g))| <= |Members(es, g)| <= Size(es, g)
  {
  }

  /** A key without rows has no members. */
  lemma {:induction false} MembersOfAbsent<K>(es: seq<(K, Value)>, g: K)
    requires g !in Keys(es)
    ensures Members(es, g) == []
  {
    if es != [] {
      var init := es[..|es| - 1];
      assert forall k :: 0 <= k < |init| ==> Keys(init)[k] == Keys(es)[k];
      MembersOfAbsent(init, g);
      assert Keys(es)[|es| - 1] == es[|es| - 1].0;
    }
  }

  lemma {:induction false} TotalSnoc<K>(xs: seq<(K, int)>, x: (K, int))
    ensures Total(xs + [x]) == Total(xs) + x.1
  {
    if xs != [] {
      assert (xs + [x])[1..] == xs[1..] + [x];
      TotalSnoc(xs[1..], x);
    }
  }

  /** The last entry adds one to the counts' total exactly when its key is
      among the groups counted and its cell is present. */
  lemma {:induction false} CountsOverLast<K>(gs: seq<K>, es: seq<(K, Value)>)
    requires Distinct(gs) && |es| > 0
    ensures var e := es[|es| - 1];
      Total(CountsOver(gs, es)) ==
        Total(CountsOver(gs, es[..|es| - 1])) + (if e.0 in gs && e.1 != Missing then 1 else 0)
  {
    if gs != [] {
      var init, g := gs[..|gs| - 1], gs[|gs| - 1];
      assert Distinct(init);
      CountsOverLast(init, es);
      TotalSnoc(CountsOver(init, es), (g, |Members(es, g)|));
      TotalSnoc(CountsOver(init, es[..|es| - 1]), (g, |Members(es[..|es| - 1], g)|));
      InFrontOrLast(gs, es[|es| - 1].0);
    }
  }

  /** The counts of all groups add up to the number of present cells. */
  lemma {:induction false} GroupCountTotal<K>(es: seq<(K, Value)>)
    ensures Total(GroupCount(es)) == Present(es)
  {
    if es != [] {
      var init, e := es[..|es| - 1], es[|es| - 1];
      GroupCountTotal(init);
      if e.0 in Keys(init) {
        GroupCountOldKey(es);
      } else {
        GroupCountNewKey(es);
      }
    }
  }

  /** The last entry's key already has a group: its cell adds to that group. */
  lemma GroupCountOldKey<K>(es: seq<(K, Value)>)
    requires es != [] && es[|es| - 1].0 in Keys(es[..|es| - 1])
    ensures var init, e := es[..|es| - 1], es[|es| - 1];
      Total(GroupCount(es)) == Total(GroupCount(init)) + (if e.1 != Missing then 1 else 0)
  {
    var init, e := es[..|es| - 1], es[|es| - 1];
    var ks := Keys(init);
    assert Keys(es) == ks + [e.0];
    var gs := GroupKeys(init);
    assert e.0 in gs;
    assert GroupKeys(es) == gs;
    CountsOverLast(gs, es);
  }

  /** The last entry's key is new: it opens a group of its own. */
  lemma GroupCountNewKey<K>(es: seq<(K, Value)>)
    requires es != [] && es[|es| - 1].0 !in Keys(es[..|es| - 1])
    ensures var init, e := es[..|es| - 1], es[|es| - 1];
      Total(GroupCount(es)) == Total(GroupCount(init)) + (if e.1 != Missing then 1 else 0)
  {
    var init, e := es[..|es| - 1], es[|es| - 1];
    var ks := Keys(init);
    assert Keys(es) == ks + [e.0];
    var gs := GroupKeys(init);
    assert e.0 !in gs;
    CountsOverLast(gs, es);
    assert GroupKeys(es) == gs + [e.0];
    assert (gs + [e.0])[..|gs|] == gs;
    MembersOfAbsent(init, e.0);
    TotalSnoc(CountsOver(gs, es), (e.0, |Members(es, e.0)|));
  }

  /** A group's number of rows depends only on the keys. */
  lemma {:induction false} SizeByKeys<K>(a: seq<(K, Value)>, b: seq<(K, Value)>, g: K)
    requires Keys(a) == Keys(b)
    ensures Size(a, g) == Size(b, g)
  {
    if a != [] {
      var n := |a| - 1;
      assert Keys(a[..n]) == Keys(a)[..n];
      assert Keys(b[..n]) == Keys(b)[..n];
      assert a[n].0 == Keys(a)[n] && b[n].0 == Keys(b)[n];
      SizeByKeys(a[..n], b[..n], g);
    }
  }

  /** Over entries with the same keys as `ids` and no missing aggregated
      cell in `ids`, every group's distinct count is at most its count in
      `ids`, which is listed at the same place. */
  lemma NUniqueAtMostCount<K>(cs: seq<(K, Value)>, ids: seq<(K, Value)>, g: K, n: int)
    requires Keys(cs) == Keys(ids)
    requires (g, n) in GroupNUnique(cs)
    ensures (g, |Members(ids, g)|) in GroupCount(ids)
    ensures n <= Size(ids, g)
  {
    var i :| 0 <= i < |GroupNUnique(cs)| && GroupNUnique(cs)[i] == (g, n);
    var gs := GroupKeys(ids);
    assert gs == GroupKeys(cs);
    assert GroupNUnique(cs) == DistinctCountsOver(gs, cs);
    assert gs[i] == g && n == |Dedup(Members(cs, g))|;
    SizeByKeys(cs, ids, g);
    DistinctAtMostCount(cs, g);
    assert GroupCount(ids) == CountsOver(gs, ids);
    assert CountsOver(gs, ids)[i] == (g, |Members(ids, g)|);
  }

  // ---------------------------------------------------------------------
  // Descending sort and top-n

  predicate Descending<K>(xs: seq<(K, int)>) {
    forall i, j :: 0 <= i < j < |xs| ==> xs[i].1 >= xs[j].1
  }

  /** Every count of `s` is at most `c`. */
  predicate AtMost<K>(s: seq<(K, int)>, c: int) {
    forall i :: 0 <= i < |s| ==> s[i].1 <= c
  }

  /** Inserts `x` after the longest prefix whose counts are at least its own. */
  function Insert<K>(x: (K, int), s: seq<(K, int)>): (r: seq<(K, int)>)
    ensures multiset(r) == multiset(s) + multiset{x}
    ensures |r| == |s| + 1
  {
    if s == [] then [x]
    else if s[0].1 >= x.1 then
      assert s == [s[0]] + s[1..];
      [s[0]] + Insert(x, s[1..])
    else
      [x] + s
  }

  lemma {:induction false} InsertAtMost<K>(x: (K, int), s: seq<(K, int)>, c: int)
    requires AtMost(s, c) && x.1 <= c
    ensures AtMost(Insert(x, s), c)
  {
    if s != [] && s[0].1 >= x.1 {
      InsertAtMost(x, s[1..], c);
    }
  }

  /** Insertion keeps a descending sequence descending. */
  lemma {:induction false} InsertDescending<K>(x: (K, int), s: seq<(K, int)>)
    requires Descending(s)
    ensures Descending(Insert(x, s))
  {
    if s != [] && s[0].1 >= x.1 {
      InsertDescending(x, s[1..]);
      InsertAtMost(x, s[1..], s[0].1);
    }
  }

  /** `sort_values(ascending=False)`: the pairs by non-increasing count,
      pairs of equal count in their original order. */
  function SortDesc<K>(xs: seq<(K, int)>): (r: seq<(K, int)>)
    ensures Descending(r)
    ensures multiset(r) == multiset(xs)
    ensures |r| == |xs|
  {
    if xs == [] then []
    else
      var init := xs[..|xs| - 1];
      assert xs == init + [xs[|xs| - 1]];
      InsertDescending(xs[|xs| - 1], SortDesc(init));
      Insert(xs[|xs| - 1], SortDesc(init))
  }

  function Min(a: int, b: int): int {
    if a <= b then a else b
  }

  /** `sort_values(ascending=False).head(n)`, and `nlargest(n)`: the first
      `n` pairs of the descending order. */
  function Top<K>(xs: seq<(K, int)>, n: nat): (r: seq<(K, int)>)
    ensures |r| == Min(n, |xs|)
  {
    SortDesc(xs)[..Min(n, |xs|)]
  }

  lemma {:induction false} TotalInsert<K>(x: (K, int), s: seq<(K, int)>)
    ensures Total(Insert(x, s)) == x.1 + Total(s)
  {
    if s != [] && s[0].1 >= x.1 {
      TotalInsert(x, s[1..]);
      assert ([s[0]] + Insert(x, s[1..]))[1..] == Insert(x, s[1..]);
    }
  }

  /** The total is the total of all but the last pair plus the last count. */
  lemma {:induction false} TotalLast<K>(xs: seq<(K, int)>)
    requires |xs| > 0
    ensures Total(xs) == Total(xs[..|xs| - 1]) + xs[|xs| - 1].1
  {
    if |xs| > 1 {
      var tail := xs[1..];
      TotalLast(tail);
      assert tail[..|tail| - 1] == xs[..|xs| - 1][1..];
    }
  }

  /** Sorting keeps the total. */
  lemma {:induction false} TotalSortDesc<K>(xs: seq<(K, int)>)
    ensures Total(SortDesc(xs)) == Total(xs)
  {
    if xs != [] {
      var init, last := xs[..|xs| - 1], xs[|xs| - 1];
      TotalSortDesc(init);
      assert SortDesc(xs) == Insert(last, SortDesc(init));
      TotalInsert(last, SortDesc(init));
      TotalLast(xs);
    }
  }

  /** The top `n` is a prefix of the full descending order, and every pair
      it leaves out has a count no greater than any pair it keeps. */
  lemma TopIsLargest<K>(xs: seq<(K, int)>, n: nat, p: (K, int), q: (K, int))
    requires p in Top(xs, n) && q in xs && q !in Top(xs, n)
    ensures p.1 >= q.1
  {
    var s := SortDesc(xs);
    var m := Min(n, |xs|);
    assert q in multiset(s);
    var j :| 0 <= j < |s| && s[j] == q;
    var i :| 0 <= i < m && s[..m][i] == p;
  }

  /** The top `n` of a descending order is itself descending and is the
      full order's prefix. */
  lemma TopIsPrefix<K>(xs: seq<(K, int)>, n: nat)
    ensures Descending(Top(xs, n))
    ensures Top(xs, n) == SortDesc(xs)[..|Top(xs, n)|]
  {
  }

  // ---------------------------------------------------------------------
  // Independence from the order of the groups

  /** The counts of the pairs, in order. */
  function CountsOf<K>(xs: seq<(K, int)>): seq<int> {
    seq(|xs|, i requires 0 <= i < |xs| => xs[i].1)
  }

  predicate NonIncreasing(a: seq<int>) {
    forall i, j :: 0 <= i < j < |a| ==> a[i] >= a[j]
  }

  /** The first element of a non-increasing sequence is its largest. */
  lemma HeadIsLargest(a: seq<int>, v: int)
    requires NonIncreasing(a) && v in multiset(a)
    ensures a[0] >= v
  {
    var k :| 0 <= k < |a| && a[k] == v;
  }

  /** Removing equal first elements keeps equal multisets equal. */
  lemma CancelHead<T>(a: seq<T>, b: seq<T>)
    requires a != [] && b != [] && a[0] == b[0] && multiset(a) == multiset(b)
    ensures multiset(a[1..]) == multiset(b[1..])
  {
    assert a == [a[0]] + a[1..] && b == [b[0]] + b[1..];
    assert multiset(a[1..]) == multiset(a) - multiset{a[0]};
    assert multiset(b[1..]) == multiset(b) - multiset{b[0]};
  }

  lemma TailNonIncreasing(a: seq<int>)
    requires a != [] && NonIncreasing(a)
    ensures NonIncreasing(a[1..])
  {
    forall i, j | 0 <= i < j < |a| - 1
      ensures a[1..][i] >= a[1..][j]
    {
      assert a[1..][i] == a[i + 1] && a[1..][j] == a[j + 1];
    }
  }

  /** Two non-increasing sequences with the same elements are equal. */
  lemma {:induction false} NonIncreasingUnique(a: seq<int>, b: seq<int>)
    requires NonIncreasing(a) && NonIncreasing(b) && multiset(a) == multiset(b)
    ensures a == b
    decreases |a|
  {
    assert |a| == |multiset(a)| == |multiset(b)| == |b|;
    if a != [] {
      HeadIsLargest(b, a[0]);
      HeadIsLargest(a, b[0]);
      CancelHead(a, b);
      TailNonIncreasing(a);
      TailNonIncreasing(b);
      NonIncreasingUnique(a[1..], b[1..]);
      assert a == [a[0]] + a[1..] && b == [b[0]] + b[1..];
    }
  }

  lemma CountsOfConcat<K>(xs: seq<(K, int)>, ys: seq<(K, int)>)
    ensures CountsOf(xs + ys) == CountsOf(xs) + CountsOf(ys)
  {
  }

  /** Removing the element at `j` removes one copy of it. */
  lemma RemoveAt<T>(ys: seq<T>, j: nat)
    requires j < |ys|
    ensures multiset(ys[..j] + ys[j + 1..]) == multiset(ys) - multiset{ys[j]}
  {
    assert ys == ys[..j] + [ys[j]] + ys[j + 1..];
  }

  /** The counts of `ys` are those of `ys` without its element at `j`, and
      one more copy of that element's count. */
  lemma CountsAt<K>(ys: seq<(K, int)>, j: nat)
    requires j < |ys|
    ensures multiset(CountsOf(ys)) == multiset(CountsOf(ys[..j] + ys[j + 1..])) + multiset{ys[j].1}
  {
    var front, x, back := ys[..j], ys[j], ys[j + 1..];
    assert ys == front + [x] + back;
    CountsOfConcat(front + [x], back);
    CountsOfConcat(front, [x]);
    CountsOfConcat(front, back);
    assert CountsOf([x]) == [x.1];
  }

  /** Reordering the pairs reorders their counts. */
  lemma {:induction false} CountsMultiset<K>(xs: seq<(K, int)>, ys: seq<(K, int)>)
    requires multiset(xs) == multiset(ys)
    ensures multiset(CountsOf(xs)) == multiset(CountsOf(ys))
    decreases |xs|
  {
    assert |xs| == |multiset(xs)| == |multiset(ys)| == |ys|;
    if xs != [] {
      var n := |xs| - 1;
      assert xs[n] in multiset(ys);
      var j :| 0 <= j < |ys| && ys[j] == xs[n];
      RemoveAt(xs, n);
      RemoveAt(ys, j);
      CountsMultiset(xs[..n] + xs[n + 1..], ys[..j] + ys[j + 1..]);
      CountsAt(xs, n);
      CountsAt(ys, j);
    }
  }

  /** Whatever order the groups come in, the descending sort has the same
      count at every rank: the order of the groups decides only which of
      the groups tied on a count comes first. */
  lemma SortDescIgnoresOrder<K>(xs: seq<(K, int)>, ys: seq<(K, int)>)
    requires multiset(xs) == multiset(ys)
    ensures CountsOf(SortDesc(xs)) == CountsOf(SortDesc(ys))
  {
    CountsMultiset(SortDesc(xs), SortDesc(ys));
    NonIncreasingUnique(CountsOf(SortDesc(xs)), CountsOf(SortDesc(ys)));
  }

  lemma CountsOfPrefix<K>(xs: seq<(K, int)>, m: nat)
    requires m <= |xs|
    ensures CountsOf(xs[..m]) == CountsOf(xs)[..m]
  {
  }

  lemma {:induction false} SameLength<T>(xs: seq<T>, ys: seq<T>)
    requires multiset(xs) == multiset(ys)
    ensures |xs| == |ys|
  {
    assert |xs| == |multiset(xs)| && |ys| == |multiset(ys)|;
  }

  /** The same for the top `n`: its counts do not depend on the order of the
      groups, only the choice among groups tied at the cut does. */
  lemma TopIgnoresOrder<K>(xs: seq<(K, int)>, ys: seq<(K, int)>, n: nat)
    requires multiset(xs) == multiset(ys)
    ensures CountsOf(Top(xs, n)) == CountsOf(Top(ys, n))
  {
    SameLength(xs, ys);
    SortDescIgnoresOrder(xs, ys);
    CountsOfPrefix(SortDesc(xs), Min(n, |xs|));
    CountsOfPrefix(SortDesc(ys), Min(n, |ys|));
  }
}
