/** The ranged-unique accumulators the categorical operations drive: they
    take a column chunk by chunk and are finalised into the distinct codes
    (`PrimitiveRangedUniqueState`) or into the number of distinct category
    values (`DictionaryRangedUniqueState`). */
module RangedUnique {
  import opened Wrappers
  import opened RevMap
  import opened Column

  /** `u` is an ascending run of distinct codes, optionally followed by
      one null: every entry but the last is non-null, and the non-null
      entries strictly increase. */
  predicate SortedShape(u: seq<Option<u32>>) {
    forall i, j :: 0 <= i < j < |u| ==> Precedes(u[i], u[j])
  }

  /** `a` may stand before `b` in a sorted shape. */
  predicate Precedes(a: Option<u32>, b: Option<u32>) {
    a.Some? && (b.Some? ==> a.value < b.value)
  }

  /** `u` is the sorted distinct form of `s`: ascending distinct codes,
      exactly the codes of `s`, with a trailing null exactly when `s`
      holds a null. */
  predicate SortedDistinctOf(u: seq<Option<u32>>, s: seq<Option<u32>>) {
    SortedShape(u) && CodeSet(u) == CodeSet(s) && HasNull(u) == HasNull(s)
  }

  /** Only the last entry of a sorted shape may be a null. */
  lemma SortedShapeInit(u: seq<Option<u32>>)
    requires SortedShape(u)
    ensures forall i :: 0 <= i < |u| - 1 ==> u[i].Some?
  {
    forall i | 0 <= i < |u| - 1
      ensures u[i].Some?
    {
      assert u[i + 1] in u;
    }
  }

  /** A sorted shape without codes is empty or a single null. */
  lemma SortedShapeNoCodes(u: seq<Option<u32>>)
    requires SortedShape(u) && CodeSet(u) == {}
    ensures u == (if HasNull(u) then [None] else [])
  {
    forall i | 0 <= i < |u|
      ensures u[i] == None
    {
      if u[i].Some? {
        CodeSetMember(u, i);
      }
    }
    SortedShapeInit(u);
    if |u| > 0 {
      assert u[0] == None;
      assert |u| == 1;
      assert u == [None];
    }
  }

  /** A sorted shape with codes starts with a code. */
  lemma SortedShapeHeadSome(u: seq<Option<u32>>)
    requires SortedShape(u) && CodeSet(u) != {}
    ensures |u| > 0 && u[0].Some?
  {
    var c :| c in CodeSet(u);
    var k := CodeSetWitness(u, c);
    SortedShapeInit(u);
  }

  /** A sorted shape with codes starts with its smallest code, and the
      rest of it is the sorted shape of the remaining codes. */
  lemma SortedShapeHead(u: seq<Option<u32>>)
    requires SortedShape(u) && CodeSet(u) != {}
    ensures |u| > 0 && u[0].Some?
    ensures forall c :: c in CodeSet(u) ==> u[0].value <= c
    ensures SortedShape(u[1..])
    ensures CodeSet(u[1..]) == CodeSet(u) - {u[0].value}
    ensures HasNull(u[1..]) == HasNull(u)
  {
    SortedShapeHeadSome(u);
    var t := u[1..];
    assert u == [u[0]] + t;
    CodeSetAppend([u[0]], t);
    assert CodeSet([u[0]]) == {u[0].value};
    forall j | 0 <= j < |t| && t[j].Some?
      ensures u[0].value < t[j].value
    {
      assert t[j] == u[j + 1];
    }
    forall c | c in CodeSet(t)
      ensures u[0].value < c
    {
      var j := CodeSetWitness(t, c);
    }
    SortedShapeTail(u);
  }

  lemma SortedShapeTail(u: seq<Option<u32>>)
    requires SortedShape(u) && |u| > 0
    ensures SortedShape(u[1..])
  {
    forall i, j | 0 <= i < j < |u[1..]|
      ensures Precedes(u[1..][i], u[1..][j])
    {
      assert u[1..][i] == u[i + 1] && u[1..][j] == u[j + 1];
    }
  }

  /** A sorted shape is determined by its codes and whether it ends in a
      null: the sorted distinct form of a column is unique. */
  lemma {:induction false} SortedShapeUnique(u: seq<Option<u32>>, v: seq<Option<u32>>)
    requires SortedShape(u) && SortedShape(v)
    requires CodeSet(u) == CodeSet(v) && HasNull(u) == HasNull(v)
    ensures u == v
    decreases |u|
  {
    if CodeSet(u) == {} {
      SortedShapeNoCodes(u);
      SortedShapeNoCodes(v);
    } else {
      SortedShapeHead(u);
      SortedShapeHead(v);
      assert u[0].value in CodeSet(v) && v[0].value in CodeSet(u);
      assert u[0] == v[0];
      SortedShapeUnique(u[1..], v[1..]);
      assert u == [u[0]] + u[1..] && v == [v[0]] + v[1..];
    }
  }

  /** The domain-bitset accumulator: one slot per code of the inclusive
      range `[lo, hi]` plus a flag recording whether a null was seen. */
  class PrimitiveRangedUniqueState {
    const lo: u32
    const hi: u32
    const seen: array<bool>
    var sawNull: bool
    /** The codes seen so far. */
    ghost var Codes: set<u32>

    ghost predicate Valid()
      reads this, seen
    {
      && lo <= hi
      && seen.Length == hi - lo + 1
      && (forall c :: c in Codes ==> lo <= c <= hi)
      && (forall i :: 0 <= i < seen.Length ==> (seen[i] <==> (lo + i) as u32 in Codes))
    }

    /** `PrimitiveRangedUniqueState::new(lo, hi)`: nothing seen yet. */
    constructor (lo: u32, hi: u32)
      requires lo <= hi
      ensures Valid() && fresh(seen)
      ensures this.lo == lo && this.hi == hi
      ensures Codes == {} && !sawNull
    {
      this.lo, this.hi := lo, hi;
      seen := new bool[hi - lo + 1](_ => false);
      sawNull := false;
      Codes := {};
    }

    /** `append(chunk)`: records every code of the chunk and whether it
        holds a null. */
    method Append(chunk: Chunk)
      requires Valid()
      requires forall x :: x in chunk && x.Some? ==> lo <= x.value <= hi
      modifies this, seen
      ensures Valid()
      ensures Codes == old(Codes) + CodeSet(chunk)
      ensures sawNull == (old(sawNull) || HasNull(chunk))
    {
      for j := 0 to |chunk|
        invariant Valid()
        invariant Codes == old(Codes) + CodeSet(chunk[..j])
        invariant sawNull == (old(sawNull) || HasNull(chunk[..j]))
      {
        assert chunk[..j + 1] == chunk[..j] + [chunk[j]];
        CodeSetAppend(chunk[..j], [chunk[j]]);
        match chunk[j]
        case None =>
          sawNull := true;
        case Some(c) =>
          assert chunk[j] in chunk;
          seen[c - lo] := true;
          Codes := Codes + {c};
      }
      assert chunk[..|chunk|] == chunk;
    }

    /** `finalize_unique`: the seen codes in ascending order, then a null
        if a null was seen. */
    method FinalizeUnique() returns (u: seq<Option<u32>>)
      requires Valid()
      ensures SortedShape(u)
      ensures CodeSet(u) == Codes
      ensures HasNull(u) == sawNull
    {
      u := [];
      for i := 0 to seen.Length
        invariant SortedShape(u) && !HasNull(u)
        invariant forall x :: x in u ==> x.Some? && x.value < lo + i
        invariant CodeSet(u) == set c | c in Codes && c < lo + i
      {
        if seen[i] {
          var c: u32 := lo + i;
          CodeSetAppend(u, [Some(c)]);
          u := u + [Some(c)];
        }
      }
      if sawNull {
        CodeSetAppend(u, [None]);
        u := u + [None];
      }
    }
  }

  /** The value-level accumulator: it gathers the codes seen (its key
      state) and, when finalised, counts the distinct category values
      those codes denote, plus one for a null. */
  class DictionaryRangedUniqueState {
    const rev: RevMapping
    var keys: set<u32>
    var sawNull: bool

    ghost predicate Valid()
      reads this
    {
      rev.WellFormed() && forall c :: c in keys ==> rev.ValidCode(c)
    }

    constructor (rev: RevMapping)
      requires rev.WellFormed()
      ensures Valid() && this.rev == rev
      ensures keys == {} && !sawNull
    {
      this.rev := rev;
      keys := {};
      sawNull := false;
    }

    /** `key_state().append(chunk)`. */
    method AppendKeys(chunk: Chunk)
      requires Valid() && AllValid(rev, chunk)
      modifies this
      ensures Valid()
      ensures keys == old(keys) + CodeSet(chunk)
      ensures sawNull == (old(sawNull) || HasNull(chunk))
    {
      for j := 0 to |chunk|
        invariant Valid()
        invariant keys == old(keys) + CodeSet(chunk[..j])
        invariant sawNull == (old(sawNull) || HasNull(chunk[..j]))
      {
        assert chunk[..j + 1] == chunk[..j] + [chunk[j]];
        CodeSetAppend(chunk[..j], [chunk[j]]);
        assert chunk[j] in chunk;
        match chunk[j]
        case None =>
          sawNull := true;
        case Some(c) =>
          keys := keys + {c};
      }
      assert chunk[..|chunk|] == chunk;
    }

    /** `finalize_n_unique`: the number of distinct category values the
        seen codes denote, counting a seen null as one more value. */
    method FinalizeNUnique() returns (n: nat)
      requires Valid()
      ensures n == |ValuesOf(rev, keys)| + (if sawNull then 1 else 0)
    {
      var values: set<Category> := {};
      var rest := keys;
      while rest != {}
        invariant rest <= keys
        invariant values == ValuesOf(rev, keys - rest)
        decreases rest
      {
        var c :| c in rest;
        assert ValuesOf(rev, (keys - rest) + {c}) == values + {rev.CategoryOf(c)};
        assert keys - (rest - {c}) == (keys - rest) + {c};
        values := values + {rev.CategoryOf(c)};
        rest := rest - {c};
      }
      assert keys - rest == keys;
      n := |values| + (if sawNull then 1 else 0);
    }
  }
}
