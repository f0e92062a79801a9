/** The dictionary (`RevMapping`) that the codes of a categorical column
    index. It is read, never changed, by the operations of this model. */
module RevMap {
  import opened Wrappers

  /** A category value. Only equality of category values matters here. */
  type Category = string

  /** `Local(categories)`: code `i` denotes `categories[i]`, so the valid
      codes are `0 .. |categories| - 1`.
      `Global(toLocal, categories)`: the codes are process-wide ids, the
      keys of `toLocal`; `toLocal[c]` is the position of the category of
      code `c` in `categories`. Two different codes may lead to equal
      category values (aliasing). */
  datatype RevMapping =
    | Local(categories: seq<Category>)
    | Global(toLocal: map<u32, nat>, categories: seq<Category>)
  {
    /** The dictionary is usable: its size fits in a `u32` and every
        global id leads to a category. */
    predicate WellFormed() {
      && |categories| <= U32_MAX
      && (Global? ==> forall c :: c in toLocal ==> toLocal[c] < |categories|)
    }

    /** `RevMapping::len`: the number of categories. */
    function Len(): (n: nat) {
      |categories|
    }

    /** Code `c` is in the dictionary's domain. */
    predicate ValidCode(c: u32) {
      match this
      case Local(cats) => c < |cats|
      case Global(m, _) => c in m
    }

    /** The category value that code `c` denotes. */
    function CategoryOf(c: u32): (v: Category)
      requires WellFormed() && ValidCode(c)
    {
      match this
      case Local(cats) => cats[c]
      case Global(m, cats) => cats[m[c]]
    }
  }

  /** The set of category values that the codes in `codes` denote. */
  function ValuesOf(rev: RevMapping, codes: set<u32>): (values: set<Category>)
    requires rev.WellFormed()
  {
    set c | c in codes && rev.ValidCode(c) :: rev.CategoryOf(c)
  }
}
