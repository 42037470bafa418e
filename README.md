# VikingReSize, modelled in Dafny

VikingReSize is a Unity editor tool that shows how the bytes of a project's
asset folder are spread over user-defined categories. A category has a
title, an extension string whose extensions are separated by single spaces
(for example `mp3 wav ogg`), a colour, a byte `amount` and a `show` flag.
The `Settings` store holds the ordered category list and the project
`total`.

"Analyze" resets the store. It then walks every file once and reads the
file's extension: the leading dot is dropped and the rest is lower-cased.
The file's length is added to every category whose split extension list
contains that key, and to the total in any case. The analysis window then
draws one bar per shown category and picks the unit (B, KB, MB, GB) for
each size. The settings window lets the user append a default category,
edit the fields of each row, and delete a row. A delete ends that repaint's
pass over the rows.

The model has these files:

- `text.dfy` holds the two .NET string operations the scanner uses. `Split(' ')` keeps empty tokens; `Split` is proved inverse to `Join`. `ToLower` is modelled on ASCII.
- `category.dfy` holds the `Category` class, its value snapshot `CategoryValue`, and the defaults a new category gets.
- `settings.dfy` holds the `Settings` class: the category list, the total, and the snapshot `Values()` of all categories in order.
- `scan.dfy` is a value-level account of one analysis pass. `Scanned(categories, files)` gives the categories, the total and whether the pass ran to the end. The file holds the lemmas about sums, token matching, idempotence and independence.
- `window.dfy` holds the imperative `Clear`, `Analyze` (with its per-file inner loop `CountFile`) and the bar drawing, proved against `Scanned` and `Visible`. It also holds the `ConvertSize` unit choice, `Percent` and the visible-row filter.
- `settings_window.dfy` holds the list operations of the settings window and the whole repaint pass `OnGUI` with its row loop `DrawRows`, proved against the value-level `Pass`.

The files of the project are an input sequence of `FileEntry(extension,
length)`: `FileInfo.Extension` with its dot, and `FileInfo.Length`.

An extensionless file makes `info.Extension.Remove(0, 1)` throw. This
happens only when the scan reaches the key computation, that is, when some
category has a non-empty extension string. The exception leaves the store
reset and then filled with the files before the failing one. The model
follows this code path: `Analyze` returns `false` and the state equals
`Scanned(...)` with `completed == false`. The total therefore equals the
sum of all file sizes only for a completed pass (`Scan.CompletedScanSums`);
`Scan.CompletesIff` states exactly when a pass completes.

The amounts can sum to more than the total. Matching is independent per
category, so a file matching two categories is counted in both
(`Scan.OverlapCountsTwice`: two `png` categories each receive the full
total). What holds is the per-category bound `Scan.ScanAmountsWithinTotal`.

## Model

| member | source | states |
|---|---|---|
| Categories.Category.constructor | Assets/Viking/ReSize/Category.cs:15-35 | a new category has an empty title and extension string, colour (220, 220, 220, 255), amount 0 and is shown |
| Store.Settings.constructor | Assets/Viking/ReSize/Settings.cs:12-15 | a new store has an empty category list and total 0 |
| Store.Settings.Values | Assets/Viking/ReSize/Settings.cs:12 | the snapshot lists every category's fields, one entry per category, in list order |
| Text.ToLower | Assets/Viking/ReSize/Editor/ReSizeWindow.cs:198 | lower-casing keeps the length, maps each character by itself and leaves no upper-case letter |
| Text.ToLowerIdempotent | Assets/Viking/ReSize/Editor/ReSizeWindow.cs:198 | lower-casing an already lower-cased key changes nothing |
| Text.UpperIsNeverLowered | Assets/Viking/ReSize/Editor/ReSizeWindow.cs:198 | no lower-cased string contains an upper-case letter |
| Text.Split | Assets/Viking/ReSize/Editor/ReSizeWindow.cs:195 | splitting gives at least one token, and no token contains the separator |
| Text.SplitThenJoin | Assets/Viking/ReSize/Editor/ReSizeWindow.cs:195 | joining the tokens with the separator gives back the extension string, so no character is lost, empty tokens included |
| Text.JoinThenSplit | Assets/Viking/ReSize/Editor/ReSizeWindow.cs:195 | splitting a join of separator-free tokens gives back exactly those tokens |
| Text.SplitWithoutSeparator | Assets/Viking/ReSize/Editor/ReSizeWindow.cs:195 | a string without spaces is a single token |
| Text.SplitAfterPiece | Assets/Viking/ReSize/Editor/ReSizeWindow.cs:195 | a space-free head followed by a space splits off as the first token |
| Text.JoinAppend | Assets/Viking/ReSize/Editor/ReSizeWindow.cs:195 | joining two token lists end to end is joining each and putting one separator between |
| Text.SplitConcat | Assets/Viking/ReSize/Editor/ReSizeWindow.cs:195 | each separator cuts the string into two sides that split independently |
| Text.SplitCount | Assets/Viking/ReSize/Editor/ReSizeWindow.cs:195 | there is one token more than there are spaces |
| Scan.Key | Assets/Viking/ReSize/Editor/ReSizeWindow.cs:198 | a file has a key exactly when its extension is non-empty; the key is one character shorter and has no upper-case letter |
| Scan.Tokens | Assets/Viking/ReSize/Editor/ReSizeWindow.cs:195 | the tokens of an extension string are its `Split(' ')`, empty tokens included |
| Scan.TokensRoundTrip | Assets/Viking/ReSize/Editor/ReSizeWindow.cs:195 | the tokens number one more than the spaces, hold no space, and join back to the extension string |
| Scan.Active | Assets/Viking/ReSize/Editor/ReSizeWindow.cs:189-192 | a category takes part in matching exactly when its extension string is non-empty |
| Scan.ActiveIffTokens | Assets/Viking/ReSize/Editor/ReSizeWindow.cs:189-195 | a category is skipped exactly when its tokens are the single empty token |
| Scan.Matches | Assets/Viking/ReSize/Editor/ReSizeWindow.cs:189-198 | a file matches an active category whose tokens contain the file's key |
| Scan.MatchThroughLowerToken | Assets/Viking/ReSize/Editor/ReSizeWindow.cs:189-198 | a match needs an active category and a file with an extension, and goes through a lower-case token one character shorter than the extension |
| Scan.AnyActive | Assets/Viking/ReSize/Editor/ReSizeWindow.cs:186-192 | some category of the list has a non-empty extension string, so the key of each file is computed |
| Scan.Throws | Assets/Viking/ReSize/Editor/ReSizeWindow.cs:198 | processing a file throws exactly when it has no extension and some category is active |
| Scan.ThrowingFileMatchesNothing | Assets/Viking/ReSize/Editor/ReSizeWindow.cs:189-198 | a throwing file has no key and matches no category; an extensionless file gets through only when every extension string is empty |
| Scan.Processed | Assets/Viking/ReSize/Editor/ReSizeWindow.cs:180-198 | the pass reaches exactly the files before the first one that throws, i.e. the first extensionless file while some category has an extension string |
| Scan.Scanned | Assets/Viking/ReSize/Editor/ReSizeWindow.cs:172-221 | one whole pass leaves one entry per category, and a completed pass leaves the sum of all file lengths in the total |
| Scan.IncompleteScanStops | Assets/Viking/ReSize/Editor/ReSizeWindow.cs:180-198 | an incomplete pass stopped at an extensionless file while some category was active, with the total of the files before it |
| Scan.Cleared | Assets/Viking/ReSize/Editor/ReSizeWindow.cs:213-221 | a reset zeroes every amount and keeps every other field and the list |
| Scan.Counted | Assets/Viking/ReSize/Editor/ReSizeWindow.cs:180-207 | after n files each category's amount is the summed length of the matched files among them, its configuration unchanged |
| Scan.AddFile | Assets/Viking/ReSize/Editor/ReSizeWindow.cs:186-202 | one file adds its full length to exactly the categories it matches, and nothing else changes |
| Scan.AmountAtMostTotal | Assets/Viking/ReSize/Editor/ReSizeWindow.cs:198-206 | a category never gets more than the total of the same files |
| Scan.EmptyExtensionsAccumulateNothing | Assets/Viking/ReSize/Editor/ReSizeWindow.cs:189-192 | a category with an empty extension string is skipped and keeps amount 0 |
| Scan.TotalStep | Assets/Viking/ReSize/Editor/ReSizeWindow.cs:206 | one more file adds its length to the total |
| Scan.AmountStep | Assets/Viking/ReSize/Editor/ReSizeWindow.cs:198-202 | one more file adds its length to a category exactly when it matches |
| Scan.CountedStep | Assets/Viking/ReSize/Editor/ReSizeWindow.cs:186-203 | counting file i after the first i files is adding that file to the counts so far |
| Scan.ClearedCountsNothing | Assets/Viking/ReSize/Editor/ReSizeWindow.cs:174 | the reset state is the state after counting no file |
| Scan.ScanStopsAt | Assets/Viking/ReSize/Editor/ReSizeWindow.cs:198 | when file i is the first that throws, the pass ends with the first i files counted and no others |
| Scan.ScanStep | Assets/Viking/ReSize/Editor/ReSizeWindow.cs:180-207 | one step of the pass: throwing is unaffected by the counts so far; a throw ends the pass, otherwise counts and total advance by that file |
| Scan.ScanRunsThrough | Assets/Viking/ReSize/Editor/ReSizeWindow.cs:180-207 | when no file throws, every file is counted and the pass completes |
| Scan.SameTokensSameAmount | Assets/Viking/ReSize/Editor/ReSizeWindow.cs:195-198 | matching is by token membership: extension strings with the same token set and emptiness collect the same amount |
| Scan.RepeatedExtensionsCountOnce | Assets/Viking/ReSize/Editor/ReSizeWindow.cs:195-198 | listing the extensions twice adds each matching file once |
| Scan.UpperCaseTokenNeverMatches | Assets/Viking/ReSize/Editor/ReSizeWindow.cs:195-198 | a token with an upper-case letter is never a file's key |
| Scan.UpperCaseTokensAccumulateNothing | Assets/Viking/ReSize/Editor/ReSizeWindow.cs:195-198 | a category all of whose tokens contain an upper-case letter collects nothing |
| Scan.DoubleSpaceAddsEmptyToken | Assets/Viking/ReSize/Editor/ReSizeWindow.cs:195 | two consecutive spaces put one empty token between the two sides |
| Scan.DoubleSpaceMatchesOnlyEmptyKey | Assets/Viking/ReSize/Editor/ReSizeWindow.cs:195-198 | that empty token matches no file with a non-empty key, so a double space matches like a single one |
| Scan.CompletesIff | Assets/Viking/ReSize/Editor/ReSizeWindow.cs:189-198 | the pass completes if and only if every file has an extension or no category has an extension string |
| Scan.ThrowsSameExtensions | Assets/Viking/ReSize/Editor/ReSizeWindow.cs:189-198 | whether a file throws depends only on which categories are active (have a non-empty extension string) |
| Scan.ThrowsAfterCounting | Assets/Viking/ReSize/Editor/ReSizeWindow.cs:189-201 | counting files never changes whether a later file throws |
| Scan.ProcessedSameActivity | Assets/Viking/ReSize/Editor/ReSizeWindow.cs:180-198 | how far the pass gets depends only on whether some category is active |
| Scan.ProcessedSameConfiguration | Assets/Viking/ReSize/Editor/ReSizeWindow.cs:180-198 | how far the pass gets depends only on the extension strings, not on the old amounts |
| Scan.ScanKeepsConfiguration | Assets/Viking/ReSize/Editor/ReSizeWindow.cs:186-221 | a scan never adds, removes or reorders categories, nor changes title, extensions, colour or show |
| Scan.ScanIgnoresOldAmounts | Assets/Viking/ReSize/Editor/ReSizeWindow.cs:174 | because of the reset, the result does not depend on the amounts before the scan |
| Scan.ScanIdempotent | Assets/Viking/ReSize/Editor/ReSizeWindow.cs:174-221 | scanning the same files again gives the same categories, total and outcome |
| Scan.CompletedScanSums | Assets/Viking/ReSize/Editor/ReSizeWindow.cs:174-207 | after a completed scan the total is the sum of all file lengths and each amount the sum of the lengths of the files that category matches |
| Scan.CategoriesIndependent | Assets/Viking/ReSize/Editor/ReSizeWindow.cs:186-202 | two categories with the same extension string get the same amount whatever the other categories are, in completed and failed passes alike; with a non-empty string both passes also end alike with the same total |
| Scan.NoActiveCategory | Assets/Viking/ReSize/Editor/ReSizeWindow.cs:189-192 | with no extension strings the scan completes, every amount stays 0 and the total still sums all files |
| Scan.ScanAmountsWithinTotal | Assets/Viking/ReSize/Editor/ReSizeWindow.cs:198-206 | every amount lies between 0 and the total of the same pass |
| Scan.OverlapCountsTwice | Assets/Viking/ReSize/Editor/ReSizeWindow.cs:186-202 | a file matching two categories is counted in both, so the amounts can sum to more than the total |
| Window.ConvertSize | Assets/Viking/ReSize/Editor/ReSizeWindow.cs:239-257 | the chosen unit is the one whose range holds the size, and the divisor is the lower bound 1024^rank of that range |
| Window.UnitIsUnique | Assets/Viking/ReSize/Editor/ReSizeWindow.cs:241-256 | the four ranges do not overlap, so exactly one unit fits a size |
| Window.ConvertSizeMonotone | Assets/Viking/ReSize/Editor/ReSizeWindow.cs:241-256 | a larger size is never shown in a smaller unit |
| Window.ScaledNumberBounds | Assets/Viking/ReSize/Editor/ReSizeWindow.cs:245-255 | from 1 KB up the quotient size / divisor, before formatting, is at least 1 and below 1024 except in GB |
| Window.ConvertSizeBoundaries | Assets/Viking/ReSize/Editor/ReSizeWindow.cs:241-256 | 1023 is in B, while 1024, 1048576 and 1073741824 are the first sizes in KB, MB and GB |
| Window.Percent | Assets/Viking/ReSize/Editor/ReSizeWindow.cs:229-232 | a part of a positive total is between 0 and 100 percent, and the whole is 100 |
| Window.PercentExample | Assets/Viking/ReSize/Editor/ReSizeWindow.cs:229-232 | 50 of 200 is 25 percent |
| Window.Visible | Assets/Viking/ReSize/Editor/ReSizeWindow.cs:99 | the visible list is no longer than the list and holds only shown categories of it |
| Window.VisibleIndicesAreShownPositions | Assets/Viking/ReSize/Editor/ReSizeWindow.cs:99 | the shown positions are listed increasing, and a position is listed if and only if its category is shown |
| Window.VisibleIsOrderedFilter | Assets/Viking/ReSize/Editor/ReSizeWindow.cs:99 | the k-th visible category is the category at the k-th shown position: all shown ones, in list order |
| Window.VisibleDistinct | Assets/Viking/ReSize/Editor/ReSizeWindow.cs:99 | filtering distinct categories gives distinct categories |
| Window.IndexOf | Assets/Viking/ReSize/Editor/ReSizeWindow.cs:106 | the result is the first position of the element, or -1 exactly when it is absent |
| Window.IndexOfDistinct | Assets/Viking/ReSize/Editor/ReSizeWindow.cs:102-106 | in a list without repetitions, each element is found at its own position |
| Window.ReSizeWindow.constructor | Assets/Viking/ReSize/Editor/ReSizeWindow.cs:27 | the visible list starts empty |
| Window.ReSizeWindow.Clear | Assets/Viking/ReSize/Editor/ReSizeWindow.cs:213-221 | the total becomes 0 and the categories become their cleared values, with the same list of objects |
| Window.ReSizeWindow.Analyze | Assets/Viking/ReSize/Editor/ReSizeWindow.cs:172-208 | the store ends as the value-level scan of its old contents says: counts, total, and whether the pass completed |
| Window.ReSizeWindow.CountFile | Assets/Viking/ReSize/Editor/ReSizeWindow.cs:186-203 | only amounts change; it fails exactly when the file throws, leaving the amounts as they were, and otherwise adds the file to the matching categories |
| Window.ReSizeWindow.DrawCategories | Assets/Viking/ReSize/Editor/ReSizeWindow.cs:99-108 | the visible list is refreshed, and the k-th shown category gets the bar at row k with its amount, title and colour |
| SettingsWindow.Edited | Assets/Viking/ReSize/Editor/ReSizeSettingsWindow.cs:72-81 | writing a row back never changes the amount |
| SettingsWindow.FirstDelete | Assets/Viking/ReSize/Editor/ReSizeSettingsWindow.cs:85-88 | the result is the first row whose Delete was pressed, or the row count when none was |
| SettingsWindow.Pass | Assets/Viking/ReSize/Editor/ReSizeSettingsWindow.cs:64-92 | the list after one repaint: one shorter exactly when a Delete was pressed; rows before the first pressed Delete are written back, and later categories move up one place unchanged |
| SettingsWindow.PassRemovesAtMostOne | Assets/Viking/ReSize/Editor/ReSizeSettingsWindow.cs:85-88 | a repaint removes one category exactly when some Delete was pressed, and none otherwise |
| SettingsWindow.PassLeavesLaterRowsAlone | Assets/Viking/ReSize/Editor/ReSizeSettingsWindow.cs:88 | the categories after the deleted one keep all their fields and their order |
| SettingsWindow.PassKeepsAmounts | Assets/Viking/ReSize/Editor/ReSizeSettingsWindow.cs:64-92 | a repaint never changes an amount: each surviving category keeps its own |
| SettingsWindow.EditedUpTo | Assets/Viking/ReSize/Editor/ReSizeSettingsWindow.cs:64-82 | the pass at row i keeps the list length |
| SettingsWindow.EditedUpToStep | Assets/Viking/ReSize/Editor/ReSizeSettingsWindow.cs:64-82 | writing row i back moves the pass on by one row |
| SettingsWindow.PassEndsAtDelete | Assets/Viking/ReSize/Editor/ReSizeSettingsWindow.cs:85-88 | removing the edited row at the first pressed Delete gives the repaint's result |
| SettingsWindow.PassWithoutDelete | Assets/Viking/ReSize/Editor/ReSizeSettingsWindow.cs:64-92 | with no Delete pressed, every row is written back and none removed |
| SettingsWindow.AddCategory | Assets/Viking/ReSize/Editor/ReSizeSettingsWindow.cs:49 | exactly one fresh default category is appended; the earlier ones, their order and the total are unchanged |
| SettingsWindow.DeleteCategory | Assets/Viking/ReSize/Editor/ReSizeSettingsWindow.cs:87 | exactly element i is removed; the others keep their order, and the total is unchanged |
| SettingsWindow.EditCategory | Assets/Viking/ReSize/Editor/ReSizeSettingsWindow.cs:72-81 | only category i changes, and only its title, colour, extensions and show; its amount is kept |
| SettingsWindow.OnGUI | Assets/Viking/ReSize/Editor/ReSizeSettingsWindow.cs:44-92 | one repaint leaves the store as `Pass` of the old list, with a default appended if Add was pressed; the total is unchanged; every surviving entry is the same `Category` object that stood at the index `Pass` maps it from, and only the appended one is new |
| SettingsWindow.DrawRows | Assets/Viking/ReSize/Editor/ReSizeSettingsWindow.cs:64-92 | the rows of one repaint leave the values as `Pass` of the old list, and the object list as the old one with the first deleted row removed; the total is unchanged |
| SettingsWindow.Removed | Assets/Viking/ReSize/Editor/ReSizeSettingsWindow.cs:87 | removing index d shortens the list by one exactly when d is an index, and every later element moves up one place |

## Left out

- The directory walk (`Application.dataPath`, `Directory.GetFiles`, `FileInfo`) is file I/O. The list of files is a parameter instead, in walk order.
- A file that disappears or cannot be read during the walk makes `FileInfo.Length` throw. That is file I/O and is not modelled.
- All Unity immediate-mode GUI code is left out: layouts, styles, colours of the bars, rich-text labels, tooltips, scroll view and `Repaint`. What the widgets return in one repaint is the `RowInput` and `addPressed` parameters of `SettingsWindow.OnGUI`. The `Bar` calls are the returned `BarCall` records.
- Persistence and the editor lifecycle are calls into the Unity editor API and are left out: `ReSizeSettings.LoadSettings`, `OnLostFocus` saving, `OnDestroy`, `Init`, `OpenSettings` and the static window handles.
- `amount` is a `double` in the source and a mathematical integer here. Every value added is a file length and so an integer, so this differs only beyond 2^53 bytes, where doubles lose precision.
- `total` is a `long` in the source. Its wrap-around past 2^63 - 1 bytes is not modelled.
- Window.ConvertSize: models only which unit and divisor are chosen. The `ToString("0.00")` rounding and the colour tags of the label are left out, being floating-point formatting and presentation. That rounding can print `1024.00` in KB (from 1048571 bytes) and in MB (from 1073736582 bytes), although the quotient itself stays below 1024.
- Window.Percent: requires a total above 0. With total 0 the source divides by zero and gets NaN or infinity, which reals cannot express. The `(int)` truncation of the bar width is also left out.
- Text.ToLower: lower-cases the ASCII letters A-Z as the invariant culture does. `String.ToLower()` uses the current culture: culture-specific mappings are left out, such as Turkish and Azeri, where `I` becomes the dotless `ı` so that `X.GIF` misses a `gif` category. Lower-casing of non-ASCII letters is left out too.
- A new category's `title` and `extensions` have no initializer in the source, so they start as `null`. The model starts them as empty strings. The `NullReferenceException` that `category.extensions.Length` would raise in `Analyze` on a `null` extension string is not modelled.
- `Settings.Valid` requires the list to hold distinct objects. Every entry comes from `new Category()`, so this holds in the program. A list holding one object twice, which could only come from outside these files, is not modelled.
- Window.ReSizeWindow.CountFile: the inner category loop of `Analyze` (lines 186-203) is a method of its own, with the same steps in the same order.
- The settings window writes the fields of the row whose Delete is pressed before removing that row. `SettingsWindow.DrawRows` does the same, but the written values disappear with the row.
