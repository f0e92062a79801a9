/** The categorical column (`CategoricalChunked`): nullable `u32` codes
    split into chunks, a shared dictionary, the enum flag, the ordering
    tag and the cached fast-unique flag. */
module Column {
  import opened Wrappers
  import opened RevMap

  /** How the column compares its values; carried along unchanged. */
  datatype Ordering = Physical | Lexical

  type Chunk = seq<Option<u32>>

  datatype CategoricalChunked = CategoricalChunked(
    chunks: seq<Chunk>,
    revMap: RevMapping,
    isEnum: bool,
    ordering: Ordering,
    fastUnique: bool)
  {
    /** All codes of the column, chunk after chunk. */
    function Codes(): (s: seq<Option<u32>>) {
      Flatten(chunks)
    }

    /** The code-validity invariant the column's constructors rely on:
        every non-null code is in the dictionary's domain, and an enum
        column with a global dictionary only uses ids below the number
        of categories. */
    predicate Valid() {
      && revMap.WellFormed()
      && (forall ch :: ch in chunks ==> AllValid(revMap, ch))
      && (isEnum && revMap.Global? ==>
            forall c :: c in revMap.toLocal ==> c < |revMap.categories|)
    }
  }

  /** Every non-null code of `ch` is in the domain of `rev`. */
  predicate AllValid(rev: RevMapping, ch: Chunk) {
    forall x :: x in ch && x.Some? ==> rev.ValidCode(x.value)
  }

  function Flatten(chunks: seq<Chunk>): (s: seq<Option<u32>>) {
    if chunks == [] then [] else Flatten(chunks[..|chunks| - 1]) + chunks[|chunks| - 1]
  }

  /** The non-null codes occurring in `s`. */
  function CodeSet(s: seq<Option<u32>>): (codes: set<u32>) {
    set x | x in s && x.Some? :: x.value
  }

  /** `null_count() > 0`. */
  predicate HasNull(s: seq<Option<u32>>) {
    None in s
  }

  /** `from_cats_and_rev_map_unchecked`: a new column over `chunks`
      sharing `rev`; a new column starts with its fast-unique flag clear. */
  function FromCatsAndRevMap(chunks: seq<Chunk>, rev: RevMapping, isEnum: bool, ordering: Ordering): (col: CategoricalChunked) {
    CategoricalChunked(chunks, rev, isEnum, ordering, false)
  }

  lemma CodeSetMember(s: seq<Option<u32>>, i: nat)
    requires i < |s| && s[i].Some?
    ensures s[i].value in CodeSet(s)
  {
    assert s[i] in s;
  }

  lemma CodeSetWitness(s: seq<Option<u32>>, c: u32) returns (i: nat)
    requires c in CodeSet(s)
    ensures i < |s| && s[i] == Some(c)
  {
    var x :| x in s && x.Some? && x.value == c;
    i :| i < |s| && s[i] == x;
  }

  lemma CodeSetAppend(a: seq<Option<u32>>, b: seq<Option<u32>>)
    ensures CodeSet(a + b) == CodeSet(a) + CodeSet(b)
    ensures HasNull(a + b) == (HasNull(a) || HasNull(b))
  {
    assert forall x :: x in a + b <==> x in a || x in b;
  }

  /** The code-validity invariant, read on the whole column. */
  lemma {:induction false} FlattenValid(rev: RevMapping, chunks: seq<Chunk>)
    requires forall ch :: ch in chunks ==> AllValid(rev, ch)
    ensures AllValid(rev, Flatten(chunks))
    decreases |chunks|
  {
    if chunks != [] {
      var init := chunks[..|chunks| - 1];
      assert forall ch :: ch in init ==> ch in chunks;
      FlattenValid(rev, init);
      assert chunks[|chunks| - 1] in chunks;
      forall x | x in Flatten(chunks) && x.Some?
        ensures rev.ValidCode(x.value)
      {
        assert x in Flatten(init) || x in chunks[|chunks| - 1];
      }
    }
  }

  lemma FlattenPrefix(chunks: seq<Chunk>, i: nat)
    requires i < |chunks|
    ensures Flatten(chunks[..i + 1]) == Flatten(chunks[..i]) + chunks[i]
  {
    assert chunks[..i + 1][..i] == chunks[..i];
  }
}
