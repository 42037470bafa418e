/** What one pass of the scanner computes, stated on values: which files
    match which category, how far the pass gets, and the sums it leaves. */
module Scan {
  import opened Text
  import opened Categories

  /** What the directory walk reports of one file: `FileInfo.Extension`
      (the suffix with its leading dot, or "" when there is none) and
      `FileInfo.Length`. */
  datatype FileEntry = FileEntry(extension: string, length: nat)

  datatype Option<T> = None | Some(value: T)

  /** The matching key of a file: its extension without the first character,
      lower-cased. `Remove(0, 1)` on an empty extension fails: None. */
  function Key(f: FileEntry): (k: Option<string>)
    ensures k.None? <==> f.extension == ""
    ensures k.Some? ==> |k.value| == |f.extension| - 1 && !HasUpper(k.value)
  {
    if f.extension == "" then None else Some(ToLower(f.extension[1..]))
  }

  /** The tokens of a category's extension string. */
  function Tokens(extensions: string): seq<string> {
    Split(extensions, ' ')
  }

  /** A category with an empty extension string is skipped by the scanner. */
  predicate Active(extensions: string)
  {
    extensions != ""
  }

  /** File `f` adds its length to a category with these extensions. */
  predicate Matches(extensions: string, f: FileEntry) {
    Active(extensions) && Key(f).Some? && Key(f).value in Tokens(extensions)
  }

  /** Processing `f` fails: it has no extension and some category is active,
      so its key is computed and `Remove(0, 1)` throws. */
  predicate Throws(f: FileEntry, cats: seq<CategoryValue>)
  {
    f.extension == "" && AnyActive(cats)
  }

  /** Some category of `cats` has a non-empty extension string. */
  predicate AnyActive(cats: seq<CategoryValue>)
  {
    exists j :: 0 <= j < |cats| && Active(cats[j].extensions)
  }

  /** The number of files the pass gets through before one throws. */
  function Processed(files: seq<FileEntry>, cats: seq<CategoryValue>): (n: nat)
    ensures n <= |files|
    ensures forall k :: 0 <= k < n ==> !Throws(files[k], cats)
    ensures n < |files| ==> Throws(files[n], cats)
  {
    if files == [] then 0
    else if Throws(files[0], cats) then 0
    else 1 + Processed(files[1..], cats)
  }

  /** Sum of the lengths of `files`. */
  function Total(files: seq<FileEntry>): nat {
    if files == [] then 0 else Total(files[..|files| - 1]) + files[|files| - 1].length
  }

  /** Sum of the lengths of the files that match `extensions`. */
  function Amount(files: seq<FileEntry>, extensions: string): nat {
    if files == [] then 0
    else
      var last := files[|files| - 1];
      Amount(files[..|files| - 1], extensions) + (if Matches(extensions, last) then last.length else 0)
  }

  /** The state `Clear` leaves: every amount zero, nothing else changed. */
  function Cleared(cats: seq<CategoryValue>): (r: seq<CategoryValue>)
    ensures |r| == |cats|
    ensures forall j :: 0 <= j < |r| ==> SameConfiguration(r[j], cats[j]) && r[j].amount == 0
  {
    seq(|cats|, j requires 0 <= j < |cats| => cats[j].(amount := 0))
  }

  /** The categories, the total, and whether the pass ran to the end. */
  datatype ScanResult = ScanResult(categories: seq<CategoryValue>, total: int, completed: bool)

  /** The categories once the first `n` files have been counted after a reset. */
  function Counted(cats: seq<CategoryValue>, files: seq<FileEntry>, n: nat): (r: seq<CategoryValue>)
    requires n <= |files|
    ensures |r| == |cats|
    ensures forall j :: 0 <= j < |r| ==>
      SameConfiguration(r[j], cats[j]) && r[j].amount == Amount(files[..n], cats[j].extensions)
  {
    seq(|cats|, j requires 0 <= j < |cats| => cats[j].(amount := Amount(files[..n], cats[j].extensions)))
  }

  /** The state a full `Analyze` (reset, then accumulate) leaves behind: the
      files before the first failing one have been counted, the rest not. */
  function Scanned(cats: seq<CategoryValue>, files: seq<FileEntry>): (r: ScanResult)
    ensures |r.categories| == |cats|
    ensures r.completed ==> r.total == Total(files)
  {
    var n := Processed(files, cats);
    assert n == |files| ==> files[..n] == files;
    ScanResult(Counted(cats, files, n), Total(files[..n]), n == |files|)
  }

  // ---- sums ----------------------------------------------------------------

  /** No category receives more than the total: a matched file is also counted in the total. */
  lemma {:induction false} AmountAtMostTotal(files: seq<FileEntry>, extensions: string)
    ensures Amount(files, extensions) <= Total(files)
    decreases |files|
  {
    if files != [] {
      AmountAtMostTotal(files[..|files| - 1], extensions);
    }
  }

  /** A category with an empty extension string accumulates nothing. */
  lemma {:induction false} EmptyExtensionsAccumulateNothing(files: seq<FileEntry>)
    ensures Amount(files, "") == 0
    decreases |files|
  {
    if files != [] {
      EmptyExtensionsAccumulateNothing(files[..|files| - 1]);
    }
  }

  /** Counting one more file adds its length to the total. */
  lemma TotalStep(files: seq<FileEntry>, i: nat)
    requires i < |files|
    ensures Total(files[..i + 1]) == Total(files[..i]) + files[i].length
  {
    assert files[..i + 1][..i] == files[..i];
  }

  /** Counting one more file adds its length to exactly the categories it matches. */
  lemma AmountStep(files: seq<FileEntry>, i: nat, extensions: string)
    requires i < |files|
    ensures Amount(files[..i + 1], extensions) ==
      Amount(files[..i], extensions) + (if Matches(extensions, files[i]) then files[i].length else 0)
  {
    assert files[..i + 1][..i] == files[..i];
  }

  /** One file's effect on the categories: its length added to each one it matches. */
  function AddFile(cats: seq<CategoryValue>, f: FileEntry): (r: seq<CategoryValue>)
    ensures |r| == |cats|
    ensures forall j :: 0 <= j < |r| ==>
      SameConfiguration(r[j], cats[j]) &&
      r[j].amount == cats[j].amount + (if Matches(cats[j].extensions, f) then f.length else 0)
  {
    seq(|cats|, j requires 0 <= j < |cats| =>
      cats[j].(amount := cats[j].amount + (if Matches(cats[j].extensions, f) then f.length else 0)))
  }

  /** Counting the next file is adding it to the categories counted so far. */
  lemma CountedStep(cats: seq<CategoryValue>, files: seq<FileEntry>, i: nat)
    requires i < |files|
    ensures Counted(cats, files, i + 1) == AddFile(Counted(cats, files, i), files[i])
  {
    forall j | 0 <= j < |cats|
      ensures Counted(cats, files, i + 1)[j] == AddFile(Counted(cats, files, i), files[i])[j]
    {
      AmountStep(files, i, cats[j].extensions);
    }
  }

  /** The reset state is the state with no file counted yet. */
  lemma ClearedCountsNothing(cats: seq<CategoryValue>, files: seq<FileEntry>)
    ensures Cleared(cats) == Counted(cats, files, 0)
  {
    assert files[..0] == [];
  }

  /** A pass that reaches a throwing file after `i` good ones stops there. */
  lemma ScanStopsAt(cats: seq<CategoryValue>, files: seq<FileEntry>, i: nat)
    requires i < |files| && Throws(files[i], cats)
    requires forall k :: 0 <= k < i ==> !Throws(files[k], cats)
    ensures Scanned(cats, files) == ScanResult(Counted(cats, files, i), Total(files[..i]), false)
  {
    assert Processed(files, cats) == i;
  }

  /** One step of the pass over `files`, for the store as it stands after
      the first `i` files: file `i` throws exactly when it would have thrown
      on the original categories; if it does the pass ends here, and if it
      does not the counts and the total move on by that file. */
  lemma ScanStep(cats: seq<CategoryValue>, files: seq<FileEntry>, i: nat)
    requires i < |files| && i <= Processed(files, cats)
    ensures Throws(files[i], Counted(cats, files, i)) == Throws(files[i], cats)
    ensures Throws(files[i], cats) ==>
      Scanned(cats, files) == ScanResult(Counted(cats, files, i), Total(files[..i]), false)
    ensures !Throws(files[i], cats) ==>
      i + 1 <= Processed(files, cats) &&
      Counted(cats, files, i + 1) == AddFile(Counted(cats, files, i), files[i]) &&
      Total(files[..i + 1]) == Total(files[..i]) + files[i].length
  {
    ThrowsAfterCounting(files[i], cats, files, i);
    if Throws(files[i], cats) {
      ScanStopsAt(cats, files, i);
    } else {
      CountedStep(cats, files, i);
      TotalStep(files, i);
    }
  }

  /** A pass in which no file throws counts every file. */
  lemma ScanRunsThrough(cats: seq<CategoryValue>, files: seq<FileEntry>)
    requires forall k :: 0 <= k < |files| ==> !Throws(files[k], cats)
    ensures Scanned(cats, files) == ScanResult(Counted(cats, files, |files|), Total(files), true)
  {
    assert files[..|files|] == files;
  }

  // ---- matching is by membership --------------------------------------------

  /** Only the set of tokens matters: two extension strings with the same
      tokens collect the same amount, however often a token is repeated. */
  lemma {:induction false} SameTokensSameAmount(files: seq<FileEntry>, a: string, b: string)
    requires Active(a) <==> Active(b)
    requires forall t :: t in Tokens(a) <==> t in Tokens(b)
    ensures Amount(files, a) == Amount(files, b)
    decreases |files|
  {
    if files != [] {
      SameTokensSameAmount(files[..|files| - 1], a, b);
    }
  }

  /** Listing an extension string twice does not count a file twice. */
  lemma RepeatedExtensionsCountOnce(files: seq<FileEntry>, e: string)
    requires Active(e)
    ensures Amount(files, e + " " + e) == Amount(files, e)
  {
    SplitConcat(e, e, ' ');
    assert e + " " + e == e + [' '] + e;
    assert forall t :: t in Tokens(e) + Tokens(e) <==> t in Tokens(e);
    SameTokensSameAmount(files, e + " " + e, e);
  }

  /** The file's key is lower-cased and tokens are not: a token holding an
      upper-case letter never matches. */
  lemma UpperCaseTokenNeverMatches(f: FileEntry, t: string)
    requires HasUpper(t)
    ensures Key(f) != Some(t)
  {
  }

  /** A category all of whose tokens hold an upper-case letter collects nothing. */
  lemma {:induction false} UpperCaseTokensAccumulateNothing(files: seq<FileEntry>, extensions: string)
    requires forall t :: t in Tokens(extensions) ==> HasUpper(t)
    ensures Amount(files, extensions) == 0
    decreases |files|
  {
    if files != [] {
      var last := files[|files| - 1];
      if Key(last).Some? {
        assert !HasUpper(Key(last).value);
      }
      UpperCaseTokensAccumulateNothing(files[..|files| - 1], extensions);
    }
  }

  /** Two consecutive spaces produce one extra empty token and nothing else. */
  lemma DoubleSpaceAddsEmptyToken(a: string, b: string)
    ensures Tokens(a + "  " + b) == Tokens(a) + [""] + Tokens(b)
  {
    SplitConcat(a, [' '] + b, ' ');
    SplitConcat([], b, ' ');
    assert [] + [' '] + b == [' '] + b;
    assert a + "  " + b == a + [' '] + ([' '] + b);
  }

  /** The empty token matches only a file whose key is empty: for every
      other file, doubling a space changes nothing. */
  lemma DoubleSpaceMatchesOnlyEmptyKey(a: string, b: string, f: FileEntry)
    requires Key(f).Some? && Key(f).value != ""
    ensures Matches(a + "  " + b, f) <==> Matches(a + " " + b, f)
  {
    DoubleSpaceAddsEmptyToken(a, b);
    SplitConcat(a, b, ' ');
    assert a + " " + b == a + [' '] + b;
    assert Active(a + "  " + b) && Active(a + " " + b);
  }

  // ---- how far the pass gets --------------------------------------------------

  /** The pass runs to the end exactly when no file lacks an extension or
      no category is active. */
  lemma CompletesIff(cats: seq<CategoryValue>, files: seq<FileEntry>)
    ensures Scanned(cats, files).completed <==>
      (forall k :: 0 <= k < |files| ==> files[k].extension != "") ||
      (forall j :: 0 <= j < |cats| ==> !Active(cats[j].extensions))
  {
    var n := Processed(files, cats);
    if n < |files| {
      assert Throws(files[n], cats);
    }
  }

  /** The tokens of an extension string: one more than its spaces, none
      holding a space, and joined by single spaces they give the string back. */
  lemma TokensRoundTrip(extensions: string)
    ensures |Tokens(extensions)| == Occurrences(extensions, ' ') + 1
    ensures forall t :: t in Tokens(extensions) ==> ' ' !in t
    ensures Join(Tokens(extensions), ' ') == extensions
  {
    SplitCount(extensions, ' ');
    SplitThenJoin(extensions, ' ');
  }

  /** A file matches only an active category, only when it has an extension,
      and then through a lower-case token one character shorter than the extension. */
  lemma MatchThroughLowerToken(extensions: string, f: FileEntry)
    requires Matches(extensions, f)
    ensures Active(extensions) && f.extension != ""
    ensures exists t :: t in Tokens(extensions) && !HasUpper(t) && |t| == |f.extension| - 1
  {
    assert Key(f).value in Tokens(extensions);
  }

  /** A category is skipped exactly when its tokens are the single empty token. */
  lemma ActiveIffTokens(extensions: string)
    ensures Active(extensions) <==> Tokens(extensions) != [""]
  {
    if extensions != "" {
      var rest := Split(extensions[1..], ' ');
      if extensions[0] == ' ' {
        assert |Tokens(extensions)| == 1 + |rest|;
      } else {
        assert Tokens(extensions)[0] == [extensions[0]] + rest[0];
      }
    }
  }

  /** A file that throws has no key and so would match no category; a file
      without extension gets through only when every extension string is empty. */
  lemma ThrowingFileMatchesNothing(f: FileEntry, cats: seq<CategoryValue>)
    ensures Throws(f, cats) ==> Key(f).None? && forall j :: 0 <= j < |cats| ==> !Matches(cats[j].extensions, f)
    ensures !Throws(f, cats) && f.extension == "" ==> forall j :: 0 <= j < |cats| ==> cats[j].extensions == ""
  {
  }

  /** An incomplete pass stopped at a file without extension while some
      category was active, and its total is that of the files before it. */
  lemma IncompleteScanStops(cats: seq<CategoryValue>, files: seq<FileEntry>)
    ensures !Scanned(cats, files).completed ==>
      AnyActive(cats) &&
      exists n :: 0 <= n < |files| && files[n].extension == "" && Scanned(cats, files).total == Total(files[..n])
  {
    var n := Processed(files, cats);
    if n < |files| {
      assert Throws(files[n], cats);
    }
  }

  /** Whether a file throws depends only on which categories are active. */
  lemma ThrowsSameExtensions(f: FileEntry, c1: seq<CategoryValue>, c2: seq<CategoryValue>)
    requires |c1| == |c2|
    requires forall j :: 0 <= j < |c1| ==> Active(c1[j].extensions) == Active(c2[j].extensions)
    ensures Throws(f, c1) == Throws(f, c2)
  {
    if AnyActive(c1) {
      var j :| 0 <= j < |c1| && Active(c1[j].extensions);
      assert Active(c2[j].extensions);
    }
    if AnyActive(c2) {
      var j :| 0 <= j < |c2| && Active(c2[j].extensions);
      assert Active(c1[j].extensions);
    }
  }

  /** Counting files never changes which files throw. */
  lemma ThrowsAfterCounting(f: FileEntry, cats: seq<CategoryValue>, files: seq<FileEntry>, n: nat)
    requires n <= |files|
    ensures Throws(f, Counted(cats, files, n)) == Throws(f, cats)
  {
    ThrowsSameExtensions(f, cats, Counted(cats, files, n));
  }

  /** How far the pass gets depends only on whether some category is active. */
  lemma {:induction false} ProcessedSameActivity(files: seq<FileEntry>, c1: seq<CategoryValue>, c2: seq<CategoryValue>)
    requires AnyActive(c1) == AnyActive(c2)
    ensures Processed(files, c1) == Processed(files, c2)
    decreases |files|
  {
    if files != [] {
      ProcessedSameActivity(files[1..], c1, c2);
    }
  }

  /** `Processed` sees only which categories are active. */
  lemma {:induction false} ProcessedSameConfiguration(files: seq<FileEntry>, c1: seq<CategoryValue>, c2: seq<CategoryValue>)
    requires |c1| == |c2|
    requires forall j :: 0 <= j < |c1| ==> c1[j].extensions == c2[j].extensions
    ensures Processed(files, c1) == Processed(files, c2)
    decreases |files|
  {
    if files != [] {
      ThrowsSameExtensions(files[0], c1, c2);
      ProcessedSameConfiguration(files[1..], c1, c2);
    }
  }

  // ---- the pass as a whole ------------------------------------------------------

  /** The pass never adds, removes, reorders or reconfigures categories. */
  lemma ScanKeepsConfiguration(cats: seq<CategoryValue>, files: seq<FileEntry>)
    ensures |Scanned(cats, files).categories| == |cats|
    ensures forall j :: 0 <= j < |cats| ==> SameConfiguration(Scanned(cats, files).categories[j], cats[j])
  {
  }

  /** The result does not depend on the amounts there were before: the
      reset makes the pass a full recomputation. */
  lemma ScanIgnoresOldAmounts(c1: seq<CategoryValue>, c2: seq<CategoryValue>, files: seq<FileEntry>)
    requires |c1| == |c2|
    requires forall j :: 0 <= j < |c1| ==> SameConfiguration(c1[j], c2[j])
    ensures Scanned(c1, files) == Scanned(c2, files)
  {
    ProcessedSameConfiguration(files, c1, c2);
    var n := Processed(files, c1);
    var s1, s2 := Scanned(c1, files).categories, Scanned(c2, files).categories;
    assert |s1| == |s2|;
    forall j | 0 <= j < |s1| ensures s1[j] == s2[j] {
      assert s1[j] == c1[j].(amount := Amount(files[..n], c1[j].extensions));
      assert s2[j] == c2[j].(amount := Amount(files[..n], c2[j].extensions));
    }
  }

  /** Scanning the same files again leaves the same state. */
  lemma ScanIdempotent(cats: seq<CategoryValue>, files: seq<FileEntry>)
    ensures var once := Scanned(cats, files);
      Scanned(once.categories, files) == once
  {
    ScanKeepsConfiguration(cats, files);
    ScanIgnoresOldAmounts(Scanned(cats, files).categories, cats, files);
  }

  /** A completed pass leaves the sum of all file lengths in the total, and
      in each category the sum over the files its tokens match. */
  lemma CompletedScanSums(cats: seq<CategoryValue>, files: seq<FileEntry>)
    requires Scanned(cats, files).completed
    ensures Scanned(cats, files).total == Total(files)
    ensures forall j :: 0 <= j < |cats| ==>
      Scanned(cats, files).categories[j].amount == Amount(files, cats[j].extensions)
  {
    var n := Processed(files, cats);
    assert n == |files|;
    assert files[..n] == files;
    var r := Counted(cats, files, n);
    assert Scanned(cats, files).categories == r;
  }

  /** Per-category independence: two categories with the same extension
      string collect the same amount, whatever the other categories are,
      and whether or not the passes complete. With a non-empty extension
      string both passes also stop at the same file. */
  lemma CategoriesIndependent(c1: seq<CategoryValue>, i: nat, c2: seq<CategoryValue>, j: nat, files: seq<FileEntry>)
    requires i < |c1| && j < |c2| && c1[i].extensions == c2[j].extensions
    ensures Scanned(c1, files).categories[i].amount == Scanned(c2, files).categories[j].amount
    ensures Active(c1[i].extensions) ==>
      Scanned(c1, files).total == Scanned(c2, files).total &&
      Scanned(c1, files).completed == Scanned(c2, files).completed
    ensures Scanned(c1, files).completed && Scanned(c2, files).completed ==>
      Scanned(c1, files).total == Scanned(c2, files).total
  {
    var n1, n2 := Processed(files, c1), Processed(files, c2);
    if c1[i].extensions == "" {
      EmptyExtensionsAccumulateNothing(files[..n1]);
      EmptyExtensionsAccumulateNothing(files[..n2]);
    } else {
      assert Active(c2[j].extensions);
      assert AnyActive(c1) && AnyActive(c2);
      ProcessedSameActivity(files, c1, c2);
    }
  }

  /** When no category is active, the pass completes, counts every file in
      the total and leaves every amount at zero. */
  lemma NoActiveCategory(cats: seq<CategoryValue>, files: seq<FileEntry>)
    requires forall j :: 0 <= j < |cats| ==> cats[j].extensions == ""
    ensures Scanned(cats, files).completed && Scanned(cats, files).total == Total(files)
    ensures forall j :: 0 <= j < |cats| ==> Scanned(cats, files).categories[j].amount == 0
  {
    CompletesIff(cats, files);
    CompletedScanSums(cats, files);
    EmptyExtensionsAccumulateNothing(files);
  }

  /** Every amount stays within the total, for finished and failed passes alike. */
  lemma ScanAmountsWithinTotal(cats: seq<CategoryValue>, files: seq<FileEntry>)
    ensures forall j :: 0 <= j < |cats| ==>
      0 <= Scanned(cats, files).categories[j].amount <= Scanned(cats, files).total
  {
    var n := Processed(files, cats);
    forall j | 0 <= j < |cats| {
      AmountAtMostTotal(files[..n], cats[j].extensions);
    }
  }

  /** Overlapping categories both receive a matching file in full, so the
      amounts together can exceed the total. */
  lemma OverlapCountsTwice()
    ensures var cats := [Default.(extensions := "png"), Default.(extensions := "png")];
      var r := Scanned(cats, [FileEntry(".png", 10)]);
      r.completed && r.total == 10 &&
      r.categories[0].amount == 10 && r.categories[1].amount == 10
  {
    var cats := [Default.(extensions := "png"), Default.(extensions := "png")];
    var files := [FileEntry(".png", 10)];
    SplitWithoutSeparator("png", ' ');
    assert ToLower("png") == "png";
    assert Key(files[0]) == Some("png");
    assert Matches("png", files[0]);
    CompletesIff(cats, files);
    assert files[..1] == files;
    assert files[..0] == [];
  }
}
