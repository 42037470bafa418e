/** The analysis window: the scan that fills the store, and the pure pieces
    the window uses to show it (size units, percentages, the visible rows). */
module Window {
  import opened Text
  import opened Categories
  import opened Store
  import opened Scan

  // ---- ConvertSize: the unit a size is shown in ------------------------------

  datatype SizeUnit = B | KB | MB | GB

  /** Position of a unit in the list B, KB, MB, GB. */
  function Rank(u: SizeUnit): nat {
    match u
    case B => 0
    case KB => 1
    case MB => 2
    case GB => 3
  }

  /** 1024 to the power `k`. */
  function Power(k: nat): nat {
    if k == 0 then 1 else 1024 * Power(k - 1)
  }

  /** The sizes shown in unit `u`: from 1024^rank up to 1024^(rank+1); the
      range of B is open below and that of GB open above. */
  predicate InRange(u: SizeUnit, size: int) {
    (u == B || Power(Rank(u)) <= size) && (u == GB || size < Power(Rank(u) + 1))
  }

  /** The unit `ConvertSize` picks, and the number it divides the size by
      before printing (B prints the size itself). */
  datatype Scaled = Scaled(unit: SizeUnit, divisor: nat)

  function ConvertSize(size: int): (r: Scaled)
    ensures InRange(r.unit, size)
    ensures r.divisor == Power(Rank(r.unit))
  {
    assert Power(2) == 1048576 && Power(4) == 1099511627776;
    if size < 1024 then Scaled(B, 1)
    else if size < 1048576 then Scaled(KB, 1024)
    else if size < 1073741824 then Scaled(MB, 1048576)
    else Scaled(GB, 1073741824)
  }

  /** The unit ranges do not overlap, so the unit of a size is unique. */
  lemma UnitIsUnique(u: SizeUnit, v: SizeUnit, size: int)
    requires InRange(u, size) && InRange(v, size)
    ensures u == v
  {
    assert Power(2) == 1048576 && Power(4) == 1099511627776;
  }

  /** A larger size is never shown in a smaller unit. */
  lemma ConvertSizeMonotone(s: int, t: int)
    requires s <= t
    ensures Rank(ConvertSize(s).unit) <= Rank(ConvertSize(t).unit)
  {
  }

  /** Outside B the quotient size / divisor is at least 1, and below 1024 except in GB. */
  lemma ScaledNumberBounds(size: int)
    requires size >= 1024
    ensures var r := ConvertSize(size);
      r.divisor <= size && (r.unit != GB ==> size < 1024 * r.divisor)
  {
  }

  /** The boundary cases: 1023 bytes, 1 KB, 1 MB and 1 GB. */
  lemma ConvertSizeBoundaries()
    ensures ConvertSize(1023) == Scaled(B, 1)
    ensures ConvertSize(1024) == Scaled(KB, 1024)
    ensures ConvertSize(1048576) == Scaled(MB, 1048576)
    ensures ConvertSize(1073741824) == Scaled(GB, 1073741824)
  {
  }

  // ---- Percent -------------------------------------------------------------------

  /** Share of `b` that `a` is, in percent. */
  function Percent(a: real, b: real): (r: real)
    requires b > 0.0
    ensures 0.0 <= a <= b ==> 0.0 <= r <= 100.0
    ensures a == b ==> r == 100.0
  {
    (a / b) * 100.0
  }

  lemma PercentExample()
    ensures Percent(50.0, 200.0) == 25.0
  {
  }

  // ---- the visible rows ------------------------------------------------------------

  /** `categories.Where(x => x.show == true).ToList()`. */
  function Visible(cats: seq<Category>): (r: seq<Category>)
    reads cats
    ensures |r| <= |cats|
    ensures forall k :: 0 <= k < |r| ==> r[k] in cats && r[k].show
  {
    if cats == [] then []
    else
      var last := cats[|cats| - 1];
      Visible(cats[..|cats| - 1]) + (if last.show then [last] else [])
  }

  /** The positions in `cats` of the shown categories, in increasing order. */
  ghost function VisibleIndices(cats: seq<Category>): seq<nat>
    reads cats
  {
    if cats == [] then []
    else VisibleIndices(cats[..|cats| - 1]) + (if cats[|cats| - 1].show then [|cats| - 1] else [])
  }

  /** The shown positions are listed in increasing order, each exactly once. */
  lemma {:induction false} VisibleIndicesAreShownPositions(cats: seq<Category>)
    ensures forall k :: 0 <= k < |VisibleIndices(cats)| ==> VisibleIndices(cats)[k] < |cats|
    ensures forall j, k :: 0 <= j < k < |VisibleIndices(cats)| ==> VisibleIndices(cats)[j] < VisibleIndices(cats)[k]
    ensures forall p {:trigger p in VisibleIndices(cats)} :: 0 <= p < |cats| ==> (cats[p].show <==> p in VisibleIndices(cats))
    decreases |cats|
  {
    if cats != [] {
      var n := |cats| - 1;
      var front := cats[..n];
      VisibleIndicesAreShownPositions(front);
      var ixf, ix := VisibleIndices(front), VisibleIndices(cats);
      assert ix == ixf + (if cats[n].show then [n] else []);
      forall j, k | 0 <= j < k < |ix|
        ensures ix[j] < ix[k]
      {
        if k == |ixf| {
          assert ix[k] == n;
        }
      }
      assert n !in ixf;
      forall p | 0 <= p < n
        ensures cats[p].show <==> p in ix
      {
        assert front[p] == cats[p];
        assert p in ix <==> p in ixf;
      }
    }
  }

  /** The visible list is exactly the shown categories, in their original
      order: the k-th visible category is the one at the k-th shown position. */
  lemma {:induction false} VisibleIsOrderedFilter(cats: seq<Category>)
    ensures |VisibleIndices(cats)| == |Visible(cats)|
    ensures forall k :: 0 <= k < |VisibleIndices(cats)| ==>
      VisibleIndices(cats)[k] < |cats| && Visible(cats)[k] == cats[VisibleIndices(cats)[k]]
    ensures forall j, k :: 0 <= j < k < |VisibleIndices(cats)| ==> VisibleIndices(cats)[j] < VisibleIndices(cats)[k]
    ensures forall p {:trigger p in VisibleIndices(cats)} :: 0 <= p < |cats| ==> (cats[p].show <==> p in VisibleIndices(cats))
    decreases |cats|
  {
    VisibleIndicesAreShownPositions(cats);
    if cats != [] {
      var n := |cats| - 1;
      var front := cats[..n];
      VisibleIsOrderedFilter(front);
      VisibleIndicesAreShownPositions(front);
      var rf, ixf := Visible(front), VisibleIndices(front);
      var r, ix := Visible(cats), VisibleIndices(cats);
      assert r == rf + (if cats[n].show then [cats[n]] else []);
      assert ix == ixf + (if cats[n].show then [n] else []);
      forall k | 0 <= k < |ixf|
        ensures r[k] == rf[k] == cats[ix[k]]
      {
        assert front[ixf[k]] == cats[ixf[k]];
      }
    }
  }

  /** Filtering a list of distinct categories gives distinct categories. */
  lemma VisibleDistinct(cats: seq<Category>)
    requires Distinct(cats)
    ensures Distinct(Visible(cats))
  {
    VisibleIsOrderedFilter(cats);
  }

  /** `List.IndexOf`: the first position of `x`, or -1 when it is absent. */
  function IndexOf<T(==)>(s: seq<T>, x: T): (r: int)
    ensures -1 <= r < |s|
    ensures r == -1 <==> x !in s
    ensures r >= 0 ==> s[r] == x && forall k :: 0 <= k < r ==> s[k] != x
  {
    if s == [] then -1
    else if s[0] == x then 0
    else
      var i := IndexOf(s[1..], x);
      if i == -1 then -1 else i + 1
  }

  /** In a list without repetitions every element is found at its own position. */
  lemma IndexOfDistinct<T>(s: seq<T>, k: nat)
    requires Distinct(s) && k < |s|
    ensures IndexOf(s, s[k]) == k
  {
  }

  /** The arguments of one `Bar` call: row, size, title and colour. */
  datatype BarCall = BarCall(index: int, amount: int, title: string, color: Color32)

  class ReSizeWindow {
    /** Categories marked as visible, refreshed on every repaint. */
    var visible: seq<Category>

    constructor ()
      ensures visible == []
    {
      visible := [];
    }

    /** Resets the total and every category's amount. */
    method Clear(settings: Settings)
      requires settings.Valid()
      modifies settings, settings.categories
      ensures settings.categories == old(settings.categories) && settings.Valid()
      ensures settings.total == 0
      ensures settings.Values() == Cleared(old(settings.Values()))
    {
      ghost var before := settings.Values();
      var cats := settings.categories;
      settings.total := 0;
      for k := 0 to |cats|
        invariant settings.categories == cats && settings.total == 0
        invariant forall m :: 0 <= m < k ==> cats[m].Value() == before[m].(amount := 0)
        invariant forall m :: k <= m < |cats| ==> cats[m].Value() == before[m]
      {
        cats[k].amount := 0;
      }
    }

    /** Resets the store, then adds each file's length to every category
        whose tokens contain the file's key, and to the total. Returns
        false when a file without extension made the key computation throw;
        the counts are then those of the files before it. */
    method Analyze(settings: Settings, files: seq<FileEntry>) returns (completed: bool)
      requires settings.Valid()
      modifies settings, settings.categories
      ensures settings.categories == old(settings.categories) && settings.Valid()
      ensures var r := Scanned(old(settings.Values()), files);
        settings.Values() == r.categories && settings.total == r.total && completed == r.completed
    {
      ghost var before := settings.Values();
      Clear(settings);
      ClearedCountsNothing(before, files);
      ghost var cats := settings.categories;
      var i := 0;
      while i < |files|
        invariant 0 <= i <= |files| && i <= Processed(files, before)
        invariant settings.categories == cats
        invariant settings.total == Total(files[..i])
        invariant settings.Values() == Counted(before, files, i)
      {
        ScanStep(before, files, i);
        var ok := CountFile(settings, files[i]);
        if !ok {
          return false;
        }
        settings.total := settings.total + files[i].length;
        i := i + 1;
      }
      ScanRunsThrough(before, files);
      return true;
    }

    /** The loop over the categories for one file: every active category
        whose tokens contain the file's key receives its length. Returns
        false, with nothing added, when the file has no extension and some
        category is active, since computing the key then throws. */
    method CountFile(settings: Settings, info: FileEntry) returns (ok: bool)
      requires settings.Valid()
      modifies settings.categories`amount
      ensures ok == !Throws(info, old(settings.Values()))
      ensures settings.Values() == if ok then AddFile(old(settings.Values()), info) else old(settings.Values())
    {
      ghost var before := settings.Values();
      ghost var after := AddFile(before, info);
      var cats := settings.categories;
      var j := 0;
      while j < |cats|
        invariant 0 <= j <= |cats|
        invariant forall m :: 0 <= m < j ==> cats[m].amount == after[m].amount
        invariant forall m :: j <= m < |cats| ==> cats[m].amount == before[m].amount
        invariant info.extension == "" ==> forall m :: 0 <= m < j ==> !Active(before[m].extensions)
      {
        var category := cats[j];
        if |category.extensions| != 0 {
          var tokens := Split(category.extensions, ' ');
          if info.extension == "" {
            // `Remove(0, 1)` on the empty extension throws here.
            assert Throws(info, before);
            assert settings.Values() == before by {
              forall m | 0 <= m < |cats| ensures cats[m].Value() == before[m] {
                assert !Matches(before[m].extensions, info);
              }
            }
            return false;
          }
          if ToLower(info.extension[1..]) in tokens {
            category.amount := category.amount + info.length;
          }
        }
        j := j + 1;
      }
      assert settings.Values() == after;
      return true;
    }

    /** Refreshes `visible` and draws one bar per visible category, in list
        order; a bar's row is the category's position among the visible ones. */
    method DrawCategories(settings: Settings) returns (bars: seq<BarCall>)
      requires settings.Valid()
      modifies this
      ensures visible == Visible(settings.categories)
      ensures |bars| == |visible|
      ensures forall k :: 0 <= k < |bars| ==>
        bars[k] == BarCall(k, visible[k].amount, visible[k].title, visible[k].color)
    {
      visible := Visible(settings.categories);
      VisibleDistinct(settings.categories);
      bars := [];
      for k := 0 to |visible|
        invariant visible == Visible(settings.categories)
        invariant |bars| == k
        invariant forall m :: 0 <= m < k ==>
          bars[m] == BarCall(m, visible[m].amount, visible[m].title, visible[m].color)
      {
        var category := visible[k];
        assert category in visible;
        if category.show {
          IndexOfDistinct(visible, k);
          bars := bars + [BarCall(IndexOf(visible, category), category.amount, category.title, category.color)];
        }
      }
    }
  }
}
