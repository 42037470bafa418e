/** The settings window: the list operations it performs on the store
    while drawing one editable row per category. */
module SettingsWindow {
  import opened Categories
  import opened Store

  /** What the widgets of one category row return in one repaint: the
      title, colour, extensions and show fields, and the Delete button. */
  datatype RowInput = RowInput(title: string, color: Color32, extensions: string, show: bool, delete: bool)

  /** A category after its row's fields have been written back. */
  function Edited(v: CategoryValue, row: RowInput): (e: CategoryValue)
    ensures e.amount == v.amount
  {
    v.(title := row.title, color := row.color, extensions := row.extensions, show := row.show)
  }

  /** The first row whose Delete button was pressed, or the row count. */
  function FirstDelete(rows: seq<RowInput>): (d: nat)
    ensures d <= |rows|
    ensures forall k :: 0 <= k < d ==> !rows[k].delete
    ensures d < |rows| ==> rows[d].delete
  {
    if rows == [] then 0 else if rows[0].delete then 0 else 1 + FirstDelete(rows[1..])
  }

  /** The list one repaint leaves: rows up to the first pressed Delete are
      edited, that row is removed, and the rows after it are not touched. */
  function Pass(vals: seq<CategoryValue>, rows: seq<RowInput>): (r: seq<CategoryValue>)
    requires |rows| == |vals|
    ensures |r| == if FirstDelete(rows) < |rows| then |vals| - 1 else |vals|
    ensures forall k :: 0 <= k < |r| ==>
      r[k] == if k < FirstDelete(rows) then Edited(vals[k], rows[k]) else vals[k + 1]
  {
    var d := FirstDelete(rows);
    seq(d, k requires 0 <= k < d => Edited(vals[k], rows[k])) + (if d < |vals| then vals[d + 1..] else [])
  }

  /** `s` with the element at `d` removed, when there is one. */
  function Removed<T>(s: seq<T>, d: nat): (r: seq<T>)
    ensures |r| == if d < |s| then |s| - 1 else |s|
    ensures forall k :: 0 <= k < |r| ==> r[k] == s[if k < d then k else k + 1]
  {
    if d < |s| then s[..d] + s[d + 1..] else s
  }

  /** At most one category disappears per repaint, and one does exactly
      when some Delete button was pressed. */
  lemma PassRemovesAtMostOne(vals: seq<CategoryValue>, rows: seq<RowInput>)
    requires |rows| == |vals|
    ensures |Pass(vals, rows)| == if exists k :: 0 <= k < |rows| && rows[k].delete then |vals| - 1 else |vals|
  {
    var d := FirstDelete(rows);
    if d == |rows| {
      assert !exists k :: 0 <= k < |rows| && rows[k].delete;
    }
  }

  /** The categories after the deleted one keep every field and their order. */
  lemma PassLeavesLaterRowsAlone(vals: seq<CategoryValue>, rows: seq<RowInput>)
    requires |rows| == |vals|
    ensures var d := FirstDelete(rows);
      forall k :: d <= k < |Pass(vals, rows)| ==> Pass(vals, rows)[k] == vals[k + 1]
  {
  }

  /** A repaint never changes an amount: each surviving category keeps its own. */
  lemma PassKeepsAmounts(vals: seq<CategoryValue>, rows: seq<RowInput>)
    requires |rows| == |vals|
    ensures var d, r := FirstDelete(rows), Pass(vals, rows);
      forall k :: 0 <= k < |r| ==> r[k].amount == vals[if k < d then k else k + 1].amount
  {
  }

  /** The list while the pass is at row `i`: the rows before it written back. */
  function EditedUpTo(vals: seq<CategoryValue>, rows: seq<RowInput>, i: nat): (r: seq<CategoryValue>)
    requires |rows| == |vals| && i <= |vals|
    ensures |r| == |vals|
  {
    seq(|vals|, m requires 0 <= m < |vals| => if m < i then Edited(vals[m], rows[m]) else vals[m])
  }

  /** Writing back row `i` moves the pass on by one row. */
  lemma EditedUpToStep(vals: seq<CategoryValue>, rows: seq<RowInput>, i: nat)
    requires |rows| == |vals| && i < |vals|
    ensures EditedUpTo(vals, rows, i)[i := Edited(vals[i], rows[i])] == EditedUpTo(vals, rows, i + 1)
  {
  }

  /** Removing the row at the first pressed Delete, once it is written back, gives the repaint's result. */
  lemma PassEndsAtDelete(vals: seq<CategoryValue>, rows: seq<RowInput>, i: nat)
    requires |rows| == |vals| && i < |rows| && rows[i].delete
    requires forall k :: 0 <= k < i ==> !rows[k].delete
    ensures var cur := EditedUpTo(vals, rows, i + 1); cur[..i] + cur[i + 1..] == Pass(vals, rows)
  {
    assert FirstDelete(rows) == i;
  }

  /** With no Delete pressed, every row is written back and none removed. */
  lemma PassWithoutDelete(vals: seq<CategoryValue>, rows: seq<RowInput>)
    requires |rows| == |vals|
    requires forall k :: 0 <= k < |rows| ==> !rows[k].delete
    ensures EditedUpTo(vals, rows, |vals|) == Pass(vals, rows)
  {
    assert FirstDelete(rows) == |rows|;
  }

  /** "Add Category": one default category appended at the end. */
  method AddCategory(settings: Settings)
    requires settings.Valid()
    modifies settings
    ensures settings.Valid()
    ensures |settings.categories| == |old(settings.categories)| + 1
    ensures settings.categories[..|old(settings.categories)|] == old(settings.categories)
    ensures fresh(settings.categories[|old(settings.categories)|])
    ensures settings.Values() == old(settings.Values()) + [Default]
    ensures settings.total == old(settings.total)
  {
    var category := new Category();
    settings.categories := settings.categories + [category];
  }

  /** "Delete" on row `i`: that category removed, the others kept in order. */
  method DeleteCategory(settings: Settings, i: nat)
    requires settings.Valid() && i < |settings.categories|
    modifies settings
    ensures settings.Valid()
    ensures settings.categories == old(settings.categories[..i] + settings.categories[i + 1..])
    ensures settings.Values() == old(settings.Values()[..i] + settings.Values()[i + 1..])
    ensures settings.total == old(settings.total)
  {
    settings.categories := settings.categories[..i] + settings.categories[i + 1..];
  }

  /** The row of category `i` writes its title, colour, extensions and show
      flag back; its amount and every other category stay as they were. */
  method EditCategory(settings: Settings, i: nat, row: RowInput)
    requires settings.Valid() && i < |settings.categories|
    modifies settings.categories[i]
    ensures settings.Values() == old(settings.Values())[i := Edited(old(settings.Values()[i]), row)]
  {
    var category := settings.categories[i];
    category.title := row.title;
    category.color := row.color;
    category.extensions := row.extensions;
    category.show := row.show;
  }

  /** One repaint of the settings window: "Add Category", then the rows. */
  method OnGUI(settings: Settings, addPressed: bool, rows: seq<RowInput>)
    requires settings.Valid()
    requires |rows| == |settings.categories| + (if addPressed then 1 else 0)
    modifies settings, settings.categories
    ensures settings.Valid()
    ensures settings.total == old(settings.total)
    ensures settings.Values() == Pass(old(settings.Values()) + (if addPressed then [Default] else []), rows)
    ensures forall k :: 0 <= k < |settings.categories| ==>
      var src := if k < FirstDelete(rows) then k else k + 1;
      if src < |old(settings.categories)| then settings.categories[k] == old(settings.categories)[src]
      else fresh(settings.categories[k])
  {
    ghost var before := settings.categories;
    ghost var vals := settings.Values() + (if addPressed then [Default] else []);
    if addPressed {
      AddCategory(settings);
    }
    assert settings.Values() == vals;
    ghost var cats := settings.categories;
    ghost var n := |before|;
    assert forall k :: 0 <= k < n ==> cats[k] == before[k] by {
      forall k | 0 <= k < n ensures cats[k] == before[k] {
        assert cats[..n][k] == cats[k];
      }
    }
    assert n < |cats| ==> fresh(cats[n]);
    DrawRows(settings, rows);
    forall k | 0 <= k < |settings.categories|
      ensures var src := if k < FirstDelete(rows) then k else k + 1;
        if src < n then settings.categories[k] == before[src] else fresh(settings.categories[k])
    {
      var src := if k < FirstDelete(rows) then k else k + 1;
      assert settings.categories[k] == cats[src];
    }
  }

  /** The rows of one repaint, in order: each row is written back until the
      first pressed Delete, which removes its category and ends the pass. */
  method DrawRows(settings: Settings, rows: seq<RowInput>)
    requires settings.Valid()
    requires |rows| == |settings.categories|
    modifies settings, settings.categories
    ensures settings.Valid()
    ensures settings.total == old(settings.total)
    ensures settings.Values() == Pass(old(settings.Values()), rows)
    ensures settings.categories == Removed(old(settings.categories), FirstDelete(rows))
  {
    ghost var base := settings.Values();
    var cats := settings.categories;
    var i := 0;
    while i < |settings.categories|
      invariant settings.Valid() && settings.categories == cats
      invariant settings.total == old(settings.total)
      invariant 0 <= i <= |cats|
      invariant forall k :: 0 <= k < i ==> !rows[k].delete
      invariant settings.Values() == EditedUpTo(base, rows, i)
    {
      EditCategory(settings, i, rows[i]);
      EditedUpToStep(base, rows, i);
      if rows[i].delete {
        DeleteCategory(settings, i);
        PassEndsAtDelete(base, rows, i);
        assert FirstDelete(rows) == i;
        return;
      }
      i := i + 1;
    }
    PassWithoutDelete(base, rows);
  }
}
