/** `CategoricalChunked::value_counts`: group the column's entries by
    equal code (nulls form one group), take each group's first entry and
    its size, and sort the resulting two-column table by count,
    descending. */
module ValueCounts {
  import opened Wrappers
  import opened RevMap
  import opened Column
  import opened SeqFacts

  /** A group of `group_tuples`: the position of its first member and the
      positions of all its members. */
  datatype Group = Group(first: nat, all: seq<nat>)

  /** `groups` partitions the positions of `s` by equal entry: each group
      is a non-empty list of positions without repetition, starting with
      `first`, whose entries all equal the entry at `first`; every
      position lies in some group; and no two groups share an entry.
      Nothing is said about the order of the groups. */
  predicate PartitionByCode(s: seq<Option<u32>>, groups: seq<Group>) {
    && (forall g :: g in groups ==> |g.all| > 0 && g.first == g.all[0] && g.first < |s|)
    && (forall g, j :: g in groups && 0 <= j < |g.all| ==> g.all[j] < |s|)
    && (forall g, j :: g in groups && 0 <= j < |g.all| && g.all[j] < |s| && g.first < |s| ==>
          s[g.all[j]] == s[g.first])
    && (forall g :: g in groups ==> Distinct(g.all))
    && (forall p :: 0 <= p < |s| ==> Covered(groups, p))
    && (forall a, b :: 0 <= a < b < |groups| && groups[a].first < |s| && groups[b].first < |s| ==>
          s[groups[a].first] != s[groups[b].first])
  }

  /** Position `p` lies in one of the groups. */
  predicate Covered(groups: seq<Group>, p: nat) {
    exists g :: g in groups && p in g.all
  }

  /** A row of the result table: a category code and how often it occurs. */
  datatype Row = Row(code: Option<u32>, count: nat)

  /** The result: the representative codes, as a categorical column over
      the same dictionary, beside their `"counts"` column. */
  datatype CountsTable = CountsTable(values: CategoricalChunked, counts: seq<nat>)

  function Sum(xs: seq<nat>): (total: nat) {
    if xs == [] then 0 else xs[0] + Sum(xs[1..])
  }

  function RowCodes(rows: seq<Row>): (codes: seq<Option<u32>>) {
    seq(|rows|, i requires 0 <= i < |rows| => rows[i].code)
  }

  function RowCounts(rows: seq<Row>): (counts: seq<nat>) {
    seq(|rows|, i requires 0 <= i < |rows| => rows[i].count)
  }

  /** The rows are ordered by non-increasing count. */
  predicate CountsDescending(rows: seq<Row>) {
    forall i, j :: 0 <= i < j < |rows| ==> rows[i].count >= rows[j].count
  }

  /** `agg_first` and `group_count` side by side: one row per group. */
  function GroupRows(s: seq<Option<u32>>, groups: seq<Group>): (rows: seq<Row>)
    requires forall i :: 0 <= i < |groups| ==> groups[i].first < |s|
  {
    seq(|groups|, i requires 0 <= i < |groups| => Row(s[groups[i].first], |groups[i].all|))
  }

  /** Insert `x` into rows ordered by non-increasing count. */
  function Insert(x: Row, sorted: seq<Row>): (r: seq<Row>) {
    if sorted == [] || x.count >= sorted[0].count then [x] + sorted
    else [sorted[0]] + Insert(x, sorted[1..])
  }

  /** The sort of the table by `"counts"`, descending. The source does not
      ask for a stable sort, so no order among equal counts is promised. */
  function SortByCountDesc(rows: seq<Row>): (sorted: seq<Row>) {
    if rows == [] then [] else Insert(rows[0], SortByCountDesc(rows[1..]))
  }

  /** `value_counts` over a given grouping of the column's entries. */
  function ValueCountsWith(col: CategoricalChunked, groups: seq<Group>): (t: CountsTable)
    requires PartitionByCode(col.Codes(), groups)
    ensures t.values.revMap == col.revMap && t.values.isEnum == col.isEnum
    ensures t.values.ordering == col.ordering
    ensures col.Valid() ==> t.values.Valid()
    ensures |t.values.Codes()| == |t.counts| == |groups| == |Entries(col.Codes())|
    ensures Distinct(t.values.Codes())
    ensures forall x :: x in t.values.Codes() <==> x in col.Codes()
    ensures forall k :: 0 <= k < |t.counts| ==> t.counts[k] == multiset(col.Codes())[t.values.Codes()[k]]
    ensures Sum(t.counts) == |col.Codes()|
    ensures forall i, j :: 0 <= i < j < |t.counts| ==> t.counts[i] >= t.counts[j]
  {
    var sorted := SortByCountDesc(GroupRows(col.Codes(), groups));
    SortedRowsTable(col, groups);
    SortedRowsTotals(col.Codes(), groups);
    CountsTable(col.(chunks := [RowCodes(sorted)]), RowCounts(sorted))
  }

  /** The distinct entries of `s` in order of first occurrence. */
  function FirstOccurrences(s: seq<Option<u32>>): (d: seq<Option<u32>>)
    ensures Distinct(d)
    ensures forall x :: x in d <==> x in s
  {
    if s == [] then []
    else
      var d := FirstOccurrences(s[..|s| - 1]);
      assert forall x :: x in s <==> x in s[..|s| - 1] || x == s[|s| - 1];
      if s[|s| - 1] in d then d else d + [s[|s| - 1]]
  }

  /** The positions of `s` holding `v`, ascending. */
  function PositionsOf(s: seq<Option<u32>>, v: Option<u32>): (ps: seq<nat>)
    ensures forall j :: 0 <= j < |ps| ==> ps[j] < |s| && s[ps[j]] == v
    ensures forall i, j :: 0 <= i < j < |ps| ==> ps[i] < ps[j]
    ensures forall p :: 0 <= p < |s| && s[p] == v ==> p in ps
  {
    if s == [] then []
    else
      var ps := PositionsOf(s[..|s| - 1], v);
      if s[|s| - 1] == v then ps + [|s| - 1] else ps
  }

  /** A reference `group_tuples`: one group per distinct entry, in order of
      first occurrence, listing its positions in ascending order. */
  function GroupTuples(s: seq<Option<u32>>): (groups: seq<Group>)
    ensures |groups| == |FirstOccurrences(s)|
    ensures forall i :: 0 <= i < |groups| ==> groups[i].first < |s|
  {
    var d := FirstOccurrences(s);
    seq(|d|, i requires 0 <= i < |d| =>
      var ps := PositionsOf(s, d[i]);
      if ps == [] then Group(0, []) else Group(ps[0], ps))
  }

  /** `CategoricalChunked::value_counts`, grouped by the reference
      grouping: one row per distinct entry, counts summing to the
      column's length, ordered by non-increasing count. */
  function ValueCounts(col: CategoricalChunked): (t: CountsTable)
    ensures |t.counts| == |Entries(col.Codes())|
    ensures Sum(t.counts) == |col.Codes()|
    ensures forall i, j :: 0 <= i < j < |t.counts| ==> t.counts[i] >= t.counts[j]
  {
    GroupTuplesPartition(col.Codes());
    ValueCountsWith(col, GroupTuples(col.Codes()))
  }

  /** The `i`-th reference group lists the positions of the `i`-th
      distinct entry, starting with its first occurrence. */
  lemma GroupTuplesAt(s: seq<Option<u32>>, i: nat)
    requires i < |FirstOccurrences(s)|
    ensures var d := FirstOccurrences(s);
            var ps := PositionsOf(s, d[i]);
            && |GroupTuples(s)| == |d|
            && |ps| > 0 && GroupTuples(s)[i] == Group(ps[0], ps)
            && s[ps[0]] == d[i]
  {
    var d := FirstOccurrences(s);
    assert d[i] in s;
    var p :| 0 <= p < |s| && s[p] == d[i];
    assert p in PositionsOf(s, d[i]);
  }

  /** The reference grouping is a partition of the positions by entry. */
  lemma GroupTuplesPartition(s: seq<Option<u32>>)
    ensures PartitionByCode(s, GroupTuples(s))
  {
    var d := FirstOccurrences(s);
    var groups := GroupTuples(s);
    forall g | g in groups
      ensures |g.all| > 0 && g.first == g.all[0] && g.first < |s|
      ensures forall j :: 0 <= j < |g.all| ==> g.all[j] < |s| && s[g.all[j]] == s[g.first]
      ensures Distinct(g.all)
    {
      var i :| 0 <= i < |groups| && groups[i] == g;
      GroupTuplesAt(s, i);
    }
    forall a, b | 0 <= a < b < |groups|
      ensures s[groups[a].first] != s[groups[b].first]
    {
      GroupTuplesAt(s, a);
      GroupTuplesAt(s, b);
    }
    forall p | 0 <= p < |s|
      ensures Covered(groups, p)
    {
      assert s[p] in s;
      var i :| 0 <= i < |d| && d[i] == s[p];
      GroupTuplesAt(s, i);
      assert p in groups[i].all;
      assert groups[i] in groups;
    }
  }

  /** Inserting adds exactly the new row. */
  lemma {:induction false} InsertMultiset(x: Row, sorted: seq<Row>)
    ensures multiset(Insert(x, sorted)) == multiset(sorted) + multiset{x}
    ensures Sum(RowCounts(Insert(x, sorted))) == x.count + Sum(RowCounts(sorted))
    decreases |sorted|
  {
    var r := Insert(x, sorted);
    if sorted == [] || x.count >= sorted[0].count {
      assert RowCounts(r)[1..] == RowCounts(sorted);
    } else {
      var t := sorted[1..];
      InsertMultiset(x, t);
      var rest := Insert(x, t);
      assert sorted == [sorted[0]] + t;
      assert RowCounts(r)[1..] == RowCounts(rest);
      assert RowCounts(sorted)[1..] == RowCounts(t);
    }
  }

  lemma DescendingTail(rows: seq<Row>)
    requires CountsDescending(rows) && rows != []
    ensures CountsDescending(rows[1..])
    ensures forall j :: 0 <= j < |rows[1..]| ==> rows[0].count >= rows[1..][j].count
  {
    var t := rows[1..];
    forall i, j | 0 <= i < j < |t|
      ensures t[i].count >= t[j].count
    {
      assert t[i] == rows[i + 1] && t[j] == rows[j + 1];
    }
    forall j | 0 <= j < |t|
      ensures rows[0].count >= t[j].count
    {
      assert t[j] == rows[j + 1];
    }
  }

  lemma DescendingCons(x: Row, rows: seq<Row>)
    requires CountsDescending(rows)
    requires forall j :: 0 <= j < |rows| ==> x.count >= rows[j].count
    ensures CountsDescending([x] + rows)
  {
    var r := [x] + rows;
    forall i, j | 0 <= i < j < |r|
      ensures r[i].count >= r[j].count
    {
      assert r[j] == rows[j - 1];
      if i > 0 {
        assert r[i] == rows[i - 1];
      }
    }
  }

  /** Inserting keeps the rows ordered by non-increasing count. */
  lemma {:induction false} InsertDescending(x: Row, sorted: seq<Row>)
    requires CountsDescending(sorted)
    ensures CountsDescending(Insert(x, sorted))
    decreases |sorted|
  {
    if sorted == [] || x.count >= sorted[0].count {
      if sorted != [] {
        DescendingTail(sorted);
        forall j | 0 <= j < |sorted|
          ensures x.count >= sorted[j].count
        {
          if j > 0 {
            assert sorted[j] == sorted[1..][j - 1];
          }
        }
      }
      DescendingCons(x, sorted);
    } else {
      var t := sorted[1..];
      DescendingTail(sorted);
      InsertDescending(x, t);
      InsertMultiset(x, t);
      var rest := Insert(x, t);
      forall j | 0 <= j < |rest|
        ensures sorted[0].count >= rest[j].count
      {
        assert rest[j] in multiset(rest);
        if rest[j] != x {
          assert rest[j] in t;
          var k :| 0 <= k < |t| && t[k] == rest[j];
        }
      }
      DescendingCons(sorted[0], rest);
    }
  }

  /** The sort orders the rows by non-increasing count, is a permutation
      of them, and so keeps the total count. */
  lemma {:induction false} SortProps(rows: seq<Row>)
    ensures CountsDescending(SortByCountDesc(rows))
    ensures multiset(SortByCountDesc(rows)) == multiset(rows)
    ensures Sum(RowCounts(SortByCountDesc(rows))) == Sum(RowCounts(rows))
    decreases |rows|
  {
    if rows != [] {
      var t := rows[1..];
      var sortedTail := SortByCountDesc(t);
      assert SortByCountDesc(rows) == Insert(rows[0], sortedTail);
      SortProps(t);
      InsertDescending(rows[0], sortedTail);
      InsertMultiset(rows[0], sortedTail);
      assert multiset(rows) == multiset{rows[0]} + multiset(t) by {
        assert rows == [rows[0]] + t;
      }
      assert Sum(RowCounts(rows)) == rows[0].count + Sum(RowCounts(t)) by {
        assert RowCounts(rows)[1..] == RowCounts(t);
      }
    }
  }

  /** The positions of `s` holding `v`. */
  function PositionSet(s: seq<Option<u32>>, v: Option<u32>): (ps: set<nat>) {
    set p: nat | p < |s| && s[p] == v
  }

  /** There are as many positions holding `v` as occurrences of `v`. */
  lemma {:induction false} PositionSetCard(s: seq<Option<u32>>, v: Option<u32>)
    ensures |PositionSet(s, v)| == multiset(s)[v]
    decreases |s|
  {
    if s != [] {
      var init := s[..|s| - 1];
      PositionSetCard(init, v);
      assert s == init + [s[|s| - 1]];
      if s[|s| - 1] == v {
        assert PositionSet(s, v) == PositionSet(init, v) + {|s| - 1};
      } else {
        assert PositionSet(s, v) == PositionSet(init, v);
      }
    }
  }

  /** Two groups with the same entry are the same group. */
  lemma SameEntrySameGroup(s: seq<Option<u32>>, groups: seq<Group>, a: nat, b: nat)
    requires PartitionByCode(s, groups) && a < |groups| && b < |groups|
    requires groups[a].first < |s| && groups[b].first < |s|
    requires s[groups[a].first] == s[groups[b].first]
    ensures a == b
  {
  }

  /** Each group holds exactly the positions of its entry, so its size is
      the number of occurrences of that entry. */
  lemma GroupSizeIsOccurrences(s: seq<Option<u32>>, groups: seq<Group>, i: nat)
    requires PartitionByCode(s, groups) && i < |groups|
    ensures |groups[i].all| == multiset(s)[s[groups[i].first]]
  {
    var g := groups[i];
    var v := s[g.first];
    assert g in groups;
    forall p | p in PositionSet(s, v)
      ensures p in Entries(g.all)
    {
      assert Covered(groups, p);
      var h :| h in groups && p in h.all;
      var k :| 0 <= k < |groups| && groups[k] == h;
      var j :| 0 <= j < |h.all| && h.all[j] == p;
      assert s[h.first] == v;
      SameEntrySameGroup(s, groups, k, i);
    }
    assert Entries(g.all) == PositionSet(s, v);
    DistinctCard(g.all);
    PositionSetCard(s, v);
  }

  /** One row per group: its entry and its size. The rows' entries are
      distinct, are exactly the entries of `s`, and each row's count is
      the number of occurrences of its entry. */
  lemma GroupRowsFacts(s: seq<Option<u32>>, groups: seq<Group>)
    requires PartitionByCode(s, groups)
    ensures var rows := GroupRows(s, groups);
            && (forall r :: r in rows ==> r.count == multiset(s)[r.code])
            && Distinct(RowCodes(rows)) && Distinct(rows)
            && (forall x :: x in RowCodes(rows) <==> x in s)
  {
    var rows := GroupRows(s, groups);
    forall r | r in rows
      ensures r.count == multiset(s)[r.code]
    {
      var i :| 0 <= i < |rows| && rows[i] == r;
      GroupSizeIsOccurrences(s, groups, i);
    }
    forall x | x in s
      ensures x in RowCodes(rows)
    {
      var p :| 0 <= p < |s| && s[p] == x;
      assert Covered(groups, p);
      var h :| h in groups && p in h.all;
      var k :| 0 <= k < |groups| && groups[k] == h;
      assert RowCodes(rows)[k] == x;
    }
    assert Distinct(RowCodes(rows));
  }

  /** The occurrence counts of the entries `c` in `s`. */
  function Occurrences(s: seq<Option<u32>>, c: seq<Option<u32>>): (counts: seq<nat>) {
    seq(|c|, i requires 0 <= i < |c| => multiset(s)[c[i]])
  }

  lemma {:induction false} OccurrencesAbsent(s: seq<Option<u32>>, x: Option<u32>, c: seq<Option<u32>>)
    requires x !in c
    ensures Occurrences(s + [x], c) == Occurrences(s, c)
  {
  }

  lemma {:induction false} OccurrencesAppend(s: seq<Option<u32>>, x: Option<u32>, c: seq<Option<u32>>)
    requires Distinct(c) && x in c
    ensures Sum(Occurrences(s + [x], c)) == Sum(Occurrences(s, c)) + 1
    decreases |c|
  {
    var t := c[1..];
    DistinctTail(c);
    assert Occurrences(s + [x], c)[1..] == Occurrences(s + [x], t);
    assert Occurrences(s, c)[1..] == Occurrences(s, t);
    if c[0] == x {
      OccurrencesAbsent(s, x, t);
    } else {
      assert x in t;
      OccurrencesAppend(s, x, t);
    }
  }

  lemma {:induction false} OccurrencesOfNothing(c: seq<Option<u32>>)
    ensures Sum(Occurrences([], c)) == 0
    decreases |c|
  {
    if c != [] {
      assert Occurrences([], c)[1..] == Occurrences([], c[1..]);
      OccurrencesOfNothing(c[1..]);
    }
  }

  /** Counting every distinct entry of `s` accounts for all of `s`. */
  lemma {:induction false} OccurrencesSum(s: seq<Option<u32>>, c: seq<Option<u32>>)
    requires Distinct(c) && forall x :: x in s ==> x in c
    ensures Sum(Occurrences(s, c)) == |s|
    decreases |s|
  {
    if s == [] {
      OccurrencesOfNothing(c);
    } else {
      var init := s[..|s| - 1];
      assert s == init + [s[|s| - 1]];
      OccurrencesSum(init, c);
      OccurrencesAppend(init, s[|s| - 1], c);
    }
  }

  /** Permuting rows keeps the set of their codes. */
  lemma PermutedRowCodes(rows: seq<Row>, sorted: seq<Row>)
    requires multiset(rows) == multiset(sorted)
    ensures forall x :: x in RowCodes(sorted) <==> x in RowCodes(rows)
  {
    forall x
      ensures x in RowCodes(sorted) <==> x in RowCodes(rows)
    {
      if x in RowCodes(rows) {
        var i :| 0 <= i < |rows| && RowCodes(rows)[i] == x;
        assert rows[i] in multiset(sorted);
        var k :| 0 <= k < |sorted| && sorted[k] == rows[i];
        assert RowCodes(sorted)[k] == x;
      }
      if x in RowCodes(sorted) {
        var k :| 0 <= k < |sorted| && RowCodes(sorted)[k] == x;
        assert sorted[k] in multiset(rows);
        var i :| 0 <= i < |rows| && rows[i] == sorted[k];
        assert RowCodes(rows)[i] == x;
      }
    }
  }

  /** The sorted rows keep every fact of the group rows. */
  lemma SortedRowsFacts(s: seq<Option<u32>>, groups: seq<Group>)
    requires PartitionByCode(s, groups)
    ensures var sorted := SortByCountDesc(GroupRows(s, groups));
            && (forall r :: r in sorted ==> r.count == multiset(s)[r.code])
            && Distinct(RowCodes(sorted))
            && (forall x :: x in RowCodes(sorted) <==> x in s)
  {
    var rows := GroupRows(s, groups);
    var sorted := SortByCountDesc(rows);
    GroupRowsFacts(s, groups);
    SortProps(rows);
    forall r | r in sorted
      ensures r.count == multiset(s)[r.code]
    {
      assert r in multiset(rows);
    }
    PermutationDistinct(rows, sorted);
    forall i, j | 0 <= i < j < |sorted|
      ensures RowCodes(sorted)[i] != RowCodes(sorted)[j]
    {
      assert sorted[i] in sorted && sorted[j] in sorted;
    }
    PermutedRowCodes(rows, sorted);
  }

  /** The sorted rows as the two columns of the table: the values are
      the column's entries, each once and valid for the dictionary, and
      each count is the number of occurrences of its value. */
  lemma SortedRowsTable(col: CategoricalChunked, groups: seq<Group>)
    requires PartitionByCode(col.Codes(), groups)
    ensures var sorted := SortByCountDesc(GroupRows(col.Codes(), groups));
            var codes := RowCodes(sorted);
            && Flatten([codes]) == codes
            && |codes| == |RowCounts(sorted)|
            && Distinct(codes)
            && (forall x :: x in codes <==> x in col.Codes())
            && (forall k :: 0 <= k < |codes| ==> RowCounts(sorted)[k] == multiset(col.Codes())[codes[k]])
            && (col.Valid() ==> AllValid(col.revMap, codes))
  {
    var s := col.Codes();
    var sorted := SortByCountDesc(GroupRows(s, groups));
    var codes := RowCodes(sorted);
    SortedRowsFacts(s, groups);
    assert Flatten([codes]) == codes;
    forall k | 0 <= k < |codes|
      ensures RowCounts(sorted)[k] == multiset(s)[codes[k]]
    {
      assert sorted[k] in sorted;
    }
    if col.Valid() {
      FlattenValid(col.revMap, col.chunks);
      forall x | x in codes && x.Some?
        ensures col.revMap.ValidCode(x.value)
      {
        assert x in s;
      }
    }
  }

  /** The sorted rows as a whole: one per group, hence one per distinct
      entry (a null group included); their counts sum to the column's
      length and do not increase. */
  lemma SortedRowsTotals(s: seq<Option<u32>>, groups: seq<Group>)
    requires PartitionByCode(s, groups)
    ensures var sorted := SortByCountDesc(GroupRows(s, groups));
            && |RowCounts(sorted)| == |groups| == |Entries(s)|
            && Sum(RowCounts(sorted)) == |s|
            && forall i, j :: 0 <= i < j < |RowCounts(sorted)| ==> RowCounts(sorted)[i] >= RowCounts(sorted)[j]
  {
    var rows := GroupRows(s, groups);
    var sorted := SortByCountDesc(rows);
    GroupRowsFacts(s, groups);
    SortProps(rows);
    assert |sorted| == |multiset(sorted)| == |multiset(rows)| == |rows|;
    var codes := RowCodes(rows);
    DistinctCard(codes);
    assert Entries(codes) == Entries(s);
    assert RowCounts(rows) == Occurrences(s, codes) by {
      forall i | 0 <= i < |rows|
        ensures rows[i].count == multiset(s)[codes[i]]
      {
        assert rows[i] in rows;
      }
    }
    OccurrencesSum(s, codes);
  }

  /** The codes of the worked example below. */
  const ScenarioCodes: seq<Option<u32>> := [Some(0), Some(2), Some(2), Some(1)]

  lemma ScenarioFirstOccurrences()
    ensures FirstOccurrences(ScenarioCodes) == [Some(0), Some(2), Some(1)]
  {
    var s := ScenarioCodes;
    assert FirstOccurrences(s[..3][..2][..1]) == [Some(0)];
    assert FirstOccurrences(s[..3][..2]) == [Some(0), Some(2)];
    assert FirstOccurrences(s[..3]) == [Some(0), Some(2)];
  }

  lemma ScenarioPositions0()
    ensures PositionsOf(ScenarioCodes, Some(0)) == [0]
  {
    var s := ScenarioCodes;
    var s1: seq<Option<u32>> := s[..3][..2][..1];
    assert s1 == [Some(0)] && s1[..0] == [];
    assert PositionsOf(s1, Some(0)) == [0];
    assert PositionsOf(s[..3][..2], Some(0)) == [0];
    assert PositionsOf(s[..3], Some(0)) == [0];
  }

  lemma ScenarioPositions2()
    ensures PositionsOf(ScenarioCodes, Some(2)) == [1, 2]
  {
    var s := ScenarioCodes;
    assert PositionsOf(s[..3][..2][..1], Some(2)) == [];
    assert PositionsOf(s[..3][..2], Some(2)) == [1];
    assert PositionsOf(s[..3], Some(2)) == [1, 2];
  }

  lemma ScenarioPositions1()
    ensures PositionsOf(ScenarioCodes, Some(1)) == [3]
  {
    var s := ScenarioCodes;
    assert PositionsOf(s[..3][..2][..1], Some(1)) == [];
    assert PositionsOf(s[..3][..2], Some(1)) == [];
    assert PositionsOf(s[..3], Some(1)) == [];
  }

  lemma ScenarioGroups()
    ensures GroupTuples(ScenarioCodes) == [Group(0, [0]), Group(1, [1, 2]), Group(3, [3])]
  {
    ScenarioFirstOccurrences();
    ScenarioPositions0();
    ScenarioPositions2();
    ScenarioPositions1();
  }

  lemma ScenarioSorted()
    ensures SortByCountDesc([Row(Some(0), 1), Row(Some(2), 2), Row(Some(1), 1)])
         == [Row(Some(2), 2), Row(Some(0), 1), Row(Some(1), 1)]
  {
    var rows := [Row(Some(0), 1), Row(Some(2), 2), Row(Some(1), 1)];
    assert rows[1..] == [Row(Some(2), 2), Row(Some(1), 1)];
    assert rows[1..][1..] == [Row(Some(1), 1)];
    assert SortByCountDesc(rows[1..][1..]) == [Row(Some(1), 1)];
    assert SortByCountDesc(rows[1..]) == [Row(Some(2), 2), Row(Some(1), 1)];
  }

  lemma ScenarioRows()
    ensures GroupRows(ScenarioCodes, [Group(0, [0]), Group(1, [1, 2]), Group(3, [3])])
         == [Row(Some(0), 1), Row(Some(2), 2), Row(Some(1), 1)]
  {
  }

  /** With the reference grouping, the example's rows sort to
      `(c, 2), (a, 1), (b, 1)`. */
  lemma ScenarioSortedRows()
    ensures SortByCountDesc(GroupRows(ScenarioCodes, GroupTuples(ScenarioCodes)))
         == [Row(Some(2), 2), Row(Some(0), 1), Row(Some(1), 1)]
  {
    ScenarioGroups();
    ScenarioRows();
    ScenarioSorted();
  }

  lemma ScenarioValues(col: CategoricalChunked)
    requires col.Codes() == ScenarioCodes
    ensures ValueCounts(col).values.chunks == [[Some(2), Some(0), Some(1)]]
  {
    ScenarioSortedRows();
    assert RowCodes([Row(Some(2), 2), Row(Some(0), 1), Row(Some(1), 1)]) == [Some(2), Some(0), Some(1)];
  }

  lemma ScenarioCounts(col: CategoricalChunked)
    requires col.Codes() == ScenarioCodes
    ensures ValueCounts(col).counts == [2, 1, 1]
  {
    ScenarioSortedRows();
  }

  /** Dictionary `["a", "b", "c"]`, codes `[0, 2, 2, 1]`: the table reads
      `(c, 2), (a, 1), (b, 1)`. */
  lemma LocalScenario(col: CategoricalChunked)
    requires col.Codes() == ScenarioCodes
    ensures ValueCounts(col).values.Codes() == [Some(2), Some(0), Some(1)]
    ensures ValueCounts(col).counts == [2, 1, 1]
  {
    ScenarioValues(col);
    ScenarioCounts(col);
    var codes := [Some(2), Some(0), Some(1)];
    assert Flatten([codes]) == Flatten([]) + codes;
  }
}
