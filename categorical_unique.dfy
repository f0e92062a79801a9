/** `unique`, `n_unique` and the bound computation of the ranged kernel
    for a categorical column (`CategoricalChunked`). */
module CategoricalUnique {
  import opened Wrappers
  import opened RevMap
  import opened Column
  import opened RangedUnique
  import opened SeqFacts

  /** Why an operation stops: a `u32` addition that overflows (a panic
      in a debug build), or a kernel range whose lower bound exceeds its
      upper bound. */
  datatype Panic = AddOverflow | InvertedRange

  datatype Outcome<T> = Done(value: T) | Panics(why: Panic)

  /** `(self.null_count() > 0) as u32`. */
  function HasNulls(col: CategoricalChunked): (h: u32)
    ensures h <= 1
    ensures h == 1 <==> None in col.Codes()
  {
    if HasNull(col.Codes()) then 1 else 0
  }

  /** What can go wrong while the kernel range is built, stated over the
      dictionary directly rather than by folding over its keys: the
      upper bound `len + has_nulls` (Local, or Global in enum mode) or
      `max key + has_nulls` (other Global) exceeds `u32::MAX`; or a
      non-enum Global dictionary has no keys at all, so the fold leaves
      `min = u32::MAX` above `max = has_nulls`. */
  function RangeError(col: CategoricalChunked): (err: Option<Panic>) {
    var h := HasNulls(col);
    match col.revMap
    case Local(cats) =>
      if |cats| + h > U32_MAX then Some(AddOverflow) else None
    case Global(m, cats) =>
      if col.isEnum then
        (if |cats| + h > U32_MAX then Some(AddOverflow) else None)
      else if m == map[] then Some(InvertedRange)
      else if exists k :: k in m && k + h > U32_MAX then Some(AddOverflow)
      else None
  }

  /** The loop over `map.keys()` folding `min` from `u32::MAX` and `max`
      from `0`. The keys are visited in an unspecified order. */
  method FoldMinMax(m: map<u32, nat>) returns (min: u32, max: u32)
    ensures m.Keys == {} ==> min == U32_MAX && max == 0
    ensures m.Keys != {} ==> min in m && max in m
    ensures forall k :: k in m ==> min <= k <= max
  {
    min, max := U32_MAX, 0;
    var rest := m.Keys;
    while rest != {}
      invariant rest <= m.Keys
      invariant forall k :: k in m.Keys - rest ==> min <= k <= max
      invariant m.Keys - rest == {} ==> min == U32_MAX && max == 0
      invariant m.Keys - rest != {} ==> min in m && max in m
      decreases rest
    {
      var v :| v in rest;
      assert m.Keys - (rest - {v}) == (m.Keys - rest) + {v};
      min := if v < min then v else min;
      max := if v > max then v else max;
      rest := rest - {v};
    }
    assert m.Keys - rest == m.Keys;
  }

  /** The inclusive code range `[lo, hi]` handed to the kernel: `[0, len +
      has_nulls]` for a Local dictionary or an enum; `[min key, max key +
      has_nulls]` otherwise. It covers every code the column may hold. */
  method KernelRange(col: CategoricalChunked) returns (r: Outcome<(u32, u32)>)
    requires col.Valid()
    ensures r.Panics? <==> RangeError(col).Some?
    ensures r.Panics? ==> RangeError(col) == Some(r.why)
    ensures r.Done? && (col.revMap.Local? || col.isEnum) ==>
              r.value == (0, |col.revMap.categories| + HasNulls(col))
    ensures r.Done? && col.revMap.Global? && !col.isEnum ==>
              && r.value.0 in col.revMap.toLocal
              && r.value.1 - HasNulls(col) in col.revMap.toLocal
              && forall k :: k in col.revMap.toLocal ==>
                   r.value.0 <= k && k + HasNulls(col) <= r.value.1
    ensures r.Done? ==> r.value.0 <= r.value.1
    ensures r.Done? ==> forall c: u32 :: col.revMap.ValidCode(c) ==> r.value.0 <= c <= r.value.1
  {
    var h := HasNulls(col);
    match col.revMap
    case Global(m, values) =>
      if col.isEnum {
        if |values| + h > U32_MAX {
          return Panics(AddOverflow);
        }
        return Done((0, |values| + h));
      } else {
        var min, max := FoldMinMax(m);
        if max + h > U32_MAX {
          return Panics(AddOverflow);
        }
        if min > max + h {
          return Panics(InvertedRange);
        }
        return Done((min, max + h));
      }
    case Local(values) =>
      if |values| + h > U32_MAX {
        return Panics(AddOverflow);
      }
      return Done((0, |values| + h));
  }

  /** Appending a code not yet present keeps a chunk repetition-free. */
  lemma AppendFresh(codes: Chunk, k: u32)
    requires Distinct(codes) && !HasNull(codes) && k !in CodeSet(codes)
    ensures Distinct(codes + [Some(k)]) && !HasNull(codes + [Some(k)])
    ensures CodeSet(codes + [Some(k)]) == CodeSet(codes) + {k}
  {
    CodeSetAppend(codes, [Some(k)]);
    forall i | 0 <= i < |codes|
      ensures codes[i] != Some(k)
    {
      if codes[i].Some? {
        CodeSetMember(codes, i);
      }
    }
  }

  /** `map.keys()` collected into a column chunk, in an unspecified order:
      every key once and nothing else. */
  method GlobalKeys(m: map<u32, nat>) returns (codes: Chunk)
    ensures CodeSet(codes) == m.Keys
    ensures !HasNull(codes) && Distinct(codes)
    ensures |codes| == |m.Keys|
  {
    codes := [];
    var rest := m.Keys;
    while rest != {}
      invariant rest <= m.Keys
      invariant CodeSet(codes) + rest == m.Keys && CodeSet(codes) !! rest
      invariant !HasNull(codes) && Distinct(codes)
      invariant |codes| + |rest| == |m.Keys|
      decreases rest
    {
      var k :| k in rest;
      AppendFresh(codes, k);
      codes := codes + [Some(k)];
      rest := rest - {k};
    }
  }

  /** `CategoricalChunked::unique`.
      An empty column gives an empty column over the same dictionary.
      On the fast path the result is the dictionary's whole domain
      (`0 .. len` for Local, the map's keys for Global) marked
      fast-unique. Otherwise the codes are run through the ranged kernel
      and the result is their sorted distinct form; that branch does not
      mark the result. Every result keeps the dictionary, the enum flag
      and the ordering, and its codes are valid for the dictionary. */
  method Unique(col: CategoricalChunked, canFastUnique: bool) returns (r: Outcome<CategoricalChunked>)
    requires col.Valid()
    ensures r.Done? ==>
              && r.value.revMap == col.revMap
              && r.value.isEnum == col.isEnum
              && r.value.ordering == col.ordering
              && r.value.Valid()
    ensures col.Codes() == [] ==>
              r.Done? && r.value.Codes() == [] && !r.value.fastUnique
    ensures col.Codes() != [] && canFastUnique && col.revMap.Local? ==>
              && r.Done? && r.value.fastUnique
              && |r.value.Codes()| == col.revMap.Len()
              && forall i :: 0 <= i < |r.value.Codes()| ==> r.value.Codes()[i] == Some(i as u32)
    ensures col.Codes() != [] && canFastUnique && col.revMap.Global? ==>
              && r.Done? && r.value.fastUnique
              && CodeSet(r.value.Codes()) == col.revMap.toLocal.Keys
              && !HasNull(r.value.Codes()) && Distinct(r.value.Codes())
    ensures col.Codes() != [] && !canFastUnique ==>
              && (r.Panics? <==> RangeError(col).Some?)
              && (r.Panics? ==> RangeError(col) == Some(r.why))
              && (r.Done? ==> !r.value.fastUnique && SortedDistinctOf(r.value.Codes(), col.Codes()))
  {
    var rev := col.revMap;
    if col.Codes() == [] {
      assert Flatten([[]]) == [];
      return Done(FromCatsAndRevMap([[]], rev, col.isEnum, col.ordering));
    }
    if canFastUnique {
      var codes: Chunk;
      match rev {
        case Local(values) =>
          codes := seq(|values|, i requires 0 <= i < |values| => Some(i as u32));
        case Global(m, _) =>
          codes := GlobalKeys(m);
      }
      var out := FromCatsAndRevMap([codes], rev, col.isEnum, col.ordering);
      out := out.(fastUnique := true);
      assert Flatten([codes]) == codes;
      return Done(out);
    }
    var range := KernelRange(col);
    if range.Panics? {
      return Panics(range.why);
    }
    var (lo, hi) := range.value;
    var state := new PrimitiveRangedUniqueState(lo, hi);
    for i := 0 to |col.chunks|
      invariant state.Valid() && state.lo == lo && state.hi == hi
      invariant state.Codes == CodeSet(Flatten(col.chunks[..i]))
      invariant state.sawNull == HasNull(Flatten(col.chunks[..i]))
    {
      FlattenPrefix(col.chunks, i);
      CodeSetAppend(Flatten(col.chunks[..i]), col.chunks[i]);
      assert col.chunks[i] in col.chunks;
      state.Append(col.chunks[i]);
    }
    assert col.chunks[..|col.chunks|] == col.chunks;
    var unique := state.FinalizeUnique();
    FlattenValid(rev, col.chunks);
    assert Flatten([unique]) == unique;
    forall x | x in unique && x.Some?
      ensures rev.ValidCode(x.value)
    {
      assert x.value in CodeSet(unique);
      var k := CodeSetWitness(col.Codes(), x.value);
    }
    return Done(FromCatsAndRevMap([unique], rev, col.isEnum, col.ordering));
  }

  /** `CategoricalChunked::n_unique`. On the fast path: the dictionary's
      length. Otherwise: the number of distinct category values the
      column's codes denote (two codes denoting equal values count once),
      plus one when the column holds a null. */
  method NUnique(col: CategoricalChunked, canFastUnique: bool) returns (n: nat)
    requires col.Valid()
    ensures canFastUnique ==> n == col.revMap.Len()
    ensures !canFastUnique ==>
              n == |ValuesOf(col.revMap, CodeSet(col.Codes()))| + (if HasNull(col.Codes()) then 1 else 0)
  {
    if canFastUnique {
      return col.revMap.Len();
    }
    var state := new DictionaryRangedUniqueState(col.revMap);
    for i := 0 to |col.chunks|
      invariant state.Valid() && state.rev == col.revMap
      invariant state.keys == CodeSet(Flatten(col.chunks[..i]))
      invariant state.sawNull == HasNull(Flatten(col.chunks[..i]))
    {
      FlattenPrefix(col.chunks, i);
      CodeSetAppend(Flatten(col.chunks[..i]), col.chunks[i]);
      assert col.chunks[i] in col.chunks;
      state.AppendKeys(col.chunks[i]);
    }
    assert col.chunks[..|col.chunks|] == col.chunks;
    n := state.FinalizeNUnique();
  }
}
