/** The `Settings` store: the ordered category list and the project total. */
module Store {
  import opened Categories

  /** No element occurs twice. */
  predicate Distinct<T(==)>(s: seq<T>) {
    forall i, j :: 0 <= i < |s| && 0 <= j < |s| && i != j ==> s[i] != s[j]
  }

  class Settings {
    /** Match and display order; categories may share extensions. */
    var categories: seq<Category>
    /** Bytes of every scanned file, matched or not. */
    var total: int

    /** Every entry is its own object, as each was added by `new Category()`. */
    ghost predicate Valid()
      reads this`categories
    {
      Distinct(categories)
    }

    constructor ()
      ensures Valid() && categories == [] && total == 0
    {
      categories := [];
      total := 0;
    }

    /** The categories' fields, in list order. */
    function Values(): (vs: seq<CategoryValue>)
      reads this`categories, categories
      ensures |vs| == |categories|
      ensures forall k :: 0 <= k < |vs| ==> vs[k] == categories[k].Value()
    {
      ValuesOf(categories)
    }
  }

  /** The fields of each category of `cats`, in order. */
  function ValuesOf(cats: seq<Category>): seq<CategoryValue>
    reads cats
  {
    seq(|cats|, k reads cats requires 0 <= k < |cats| => cats[k].Value())
  }
}
