# du-lite in Dafny

du-lite reports the N largest immediate subdirectories of a base directory,
with human-readable sizes. This project models its three pieces of logic in
`du-lite.c`:

- **Unit scaling** (`format_size`), module `Units` in `units.dfy`. A loop
  divides the byte count by 1024 while it is at least 1024, stepping through
  B, KB, MB, GB and TB, and stops at TB. The division is integer division,
  so the printed value always ends in `.0`. The loop is the method
  `ScaleSize`. It is proved equal to an independent definition by
  thresholds: `UnitFor` gives the unit and `Scaled` the truncated quotient.
  `FormatSize` builds the text in the 20-byte buffer.
- **Recursive size aggregation** (`calculate_directory_size`), module
  `FsTree` in `tree.dfy`. The filesystem is a tree. `Dir(openable,
  children)` is a directory, which may fail to open. `File(size)` and
  `Link(size)` are non-directories with their own `lstat` size, because
  symbolic links are not followed. `Unstatable` is an entry whose `lstat`
  fails. Each entry also records whether building its full path succeeds.
  `DirSize` states the function's result as written. `CalculateDirectorySize`
  is the loop with its recursion, proved to return `DirSize`.
- **Collection and top-N selection** (`sweep_directory`, `print_sizes`,
  `compare_dir_info`), module `Report` in `report.dfy`. `CollectUpTo` states
  the collection loop. `SweepDirectory` runs it, sorts the collected entries
  in place in an array (`SortBySizeDescending`, which stands for `qsort`),
  clamps the count, and emits the first lines.

In these places the code may surprise a reader; the model follows the code:

- A `-1` returned by a nested call is added to the parent's total. It is
  not propagated as a failure (du-lite.c:132). So an openable directory
  whose paths all build can still return `-1`. The sweep then aborts on it.
  A directory holding two unreadable subdirectories returns `-2`, which the
  sweep silently drops as "smaller than 1". See `NestedFailureIsAdded` and
  `QuietMeansNothingToReport`.
- 1,572,864 bytes print as `1.0 MB`, not `1.5 MB`, because the scaling
  truncates before the value is printed (`WorkedExamples`).
- A symbolic link adds its own `lstat` size to the total. Only the link is
  counted; its target is not followed (du-lite.c:123-136).

## Model

| member | source | states |
|---|---|---|
| Units.ScaleSize | du-lite.c:39-47 | the loop ends with exactly the threshold-defined unit (the largest k <= 4 with size >= 1024^k) and the size divided by 1024^k with truncation |
| Units.FormatSize | du-lite.c:37-59 | for every non-negative long long size (its caller passes sizes of at least 1), the returned text is the "%.1f %s" rendering of the scaled value and unit label, cut to what fits the 20-byte buffer |
| Units.Clip | du-lite.c:49-56 | snprintf keeps the whole text when it has at most 19 characters, and exactly its first 19 characters otherwise |
| Units.ScaledBounds | du-lite.c:39-47 | the unit index is at most 4 (TB); the value is below 1024 unless the unit is TB; sizes of 1024 or more never scale to 0 |
| Units.ScaledTruncates | du-lite.c:42-47 | value * 1024^k <= size < (value + 1) * 1024^k: the fraction is dropped, so the printed decimal is always 0 |
| Units.SmallSizesInBytes | du-lite.c:42-43 | sizes below 1024 are shown unchanged in B |
| Units.HugeSizesStayInTerabytes | du-lite.c:42-47 | sizes of 1024^5 and more stay in TB with value size / 1024^4, which is at least 1024 |
| Units.UnitForMonotone | du-lite.c:42-47 | a larger size never shows a smaller unit |
| Units.ScaledMonotoneWithinUnit | du-lite.c:42-47 | within one unit a larger size never shows a smaller value |
| Units.WorkedExamples | du-lite.c:37-59 | 1,572,864 -> 1 MB; 629,145,600 -> 600 MB; 1023 -> 1023 B; 1024 -> 1 KB; 1024^4 -> 1 TB; 2 * 1024^5 -> 2048 TB |
| Units.DigitsRoundTrip | du-lite.c:55-56 | the printed digits are decimal digits and read back as the number printed |
| Units.FormatTextNeverTruncated | du-lite.c:49-56 | for every non-negative size a long long holds, the text has at most 12 characters, so the buffer never truncates it, and it is the digits, ".0 ", then the label |
| FsTree.JoinPathInjective | du-lite.c:176-178 | building full paths is one-to-one in the name, so different children of one directory get different paths |
| FsTree.DirSize | du-lite.c:96-145 | the result as written: -1 when opendir fails, -1 when a child path cannot be built, else the running total; it is never negative on a tree where every directory opens and every path builds |
| FsTree.CalculateDirectorySize | du-lite.c:96-145 | the readdir loop with recursion returns DirSize: -1 if opendir fails or a child path cannot be built, else the sum of lstat sizes of non-directories and recursive results of subdirectories, skipping "."/".." and entries lstat cannot read |
| FsTree.FailureGivesMinusOne | du-lite.c:101-120 | a directory that cannot be opened, or one with a child whose path cannot be built, gives -1 |
| FsTree.NestedFailureIsAdded | du-lite.c:130-133 | a nested -1 is added, not propagated: an openable directory whose only subdirectory cannot be opened returns -1 without any path failure; beside a 5-byte file it returns 4 |
| FsTree.HealthySizeIsSumOfLeaves | du-lite.c:107-144 | on a tree where every directory opens and every path builds, the result is the sum of the lstat sizes of all files and symbolic links in the subtree |
| FsTree.MinusOneExactlyOnFailure | du-lite.c:96-145 | when the subdirectories are failure-free, the result is -1 exactly when the directory cannot be opened or a child path cannot be built, and is non-negative otherwise |
| Report.CompareDirInfo | du-lite.c:30-33 | the comparator is negative exactly when the first entry is larger, zero exactly on equal sizes, positive exactly when the second is larger: descending order |
| Report.CompareAsWritten | du-lite.c:30-33 | compare_dir_info exactly as written: an int in the 32-bit range that agrees with the difference of the sizes modulo 2^32 |
| Report.ToInt32 | du-lite.c:32 | the conversion of the difference to int lands in the 32-bit range and agrees with the difference modulo 2^32 |
| Report.ComparatorTruncation | du-lite.c:30-33 | the comparator as written agrees with the descending comparison for size gaps under 2^31, and gets the sign wrong (gap 2^31) or reports equality (gap 2^32) beyond |
| Report.SortBySizeDescending | du-lite.c:73 | after the sort the entries have non-increasing sizes and are a permutation of the entries before it |
| Report.Shown | du-lite.c:68-71 | the announced count is the requested count clamped to the number of entries |
| Report.LineShowsFormatText | du-lite.c:80-87 | the value and unit of a printed line are exactly what the text format_size returns for the entry's size shows: its digits, ".0 ", then the unit's label |
| Report.PrintSizes | du-lite.c:63-92 | clamps the count, leaves the array sorted descending as a permutation of its old contents, and emits one line (path, scaled value, unit) for each of the first min(N, count) entries in sorted order |
| Report.EmittedInDisplayOrder | du-lite.c:77-88 | printed lines never show a larger unit, or a larger value in the same unit, than a line above them |
| Report.EmittedAreLargest | du-lite.c:73-88 | no entry left unprinted is larger than a printed one |
| Report.SweepDirectory | du-lite.c:150-247 | fails if the base cannot be opened; otherwise fails with exactly the error the collection loop ends in, which AnyFailureAborts and AbortsOnlyOnFailure show is the first child whose path fails or whose subdirectory measures -1; prints nothing when no entry was collected; otherwise prints min(N, count) lines from a descending permutation of the collected entries |
| Report.CollectUpTo | du-lite.c:167-237 | the collection loop: skip "."/"..", abort on a path failure, skip entries lstat cannot read and non-directories, abort on a size of -1, append {path, size} when the size is at least 1; every collected size is at least 1 and there are at most as many entries as children seen |
| Report.CollectedAreMeasuredSubdirs | du-lite.c:171-234 | every collected entry came from a child that is not "."/"..", whose path builds, that lstat reports as a directory, with its measured size, which is at least 1 |
| Report.MeasuredSubdirsAreCollected | du-lite.c:217-233 | conversely, every child that is not "."/"..", whose path builds, that is a directory and measures at least 1 is collected with its full path and size, unless the sweep aborted |
| Report.CollectionOnlyAppends | du-lite.c:217-233 | each loop step appends at most one entry and leaves earlier entries unchanged |
| Report.AbortsOnlyOnFailure | du-lite.c:176-214 | conversely, a sweep aborts only at a child other than "."/".." whose path cannot be built or that is a subdirectory measuring -1, and the error names the first such child; entries lstat cannot read and non-directories never abort it |
| Report.AnyFailureAborts | du-lite.c:176-214 | a child whose path cannot be built, or a subdirectory measuring -1, makes the whole sweep fail |
| Report.QuietMeansNothingToReport | du-lite.c:216-244 | when nothing was collected, every subdirectory measured below 1 and not -1, so empty subdirectories and negative totals are silently left out |
| Report.ReportExample | du-lite.c:150-247 | a base with a/ (600 MiB), b/ (10 KiB), empty c/ and a loose file collects a and b only; with N = 2 they print in that order as 600 MB and 10 KB |

## Findings

| source | as written | input that shows it | evidently intended | confidence | as-written member | corrected member |
|---|---|---|---|---|---|---|
| du-lite.c:30-33 | the comparator returns the long long difference of the sizes converted to int | sizes 1 and 2^31 + 1 give a negative result, so the smaller directory sorts first; sizes 1 and 2^32 + 1 give 0, so they count as equal | the sign of the size comparison, largest first | not executed; the conversion keeps the low 32 bits on common compilers | Report.ComparatorTruncation | Report.CompareDirInfo |

The sort in the model uses the corrected comparator.

## Left out

- Real directory I/O: `opendir`, `readdir`, `closedir` and `lstat` are replaced by the tree. `readdir` order is the order of the children sequence.
- Memory management: `malloc` and `realloc` failures, `destruct_dirs` and `free` (du-lite.c:13-25, 49-53, 220-228). Allocation cannot fail in the model, and the growable `dirs` array is a sequence that the loop appends to.
- `printf` output and the header line: the model keeps the announced count and the (path, value, unit) of each line. `FormatSize` gives the text of a size.
- The `(double)` cast: for a non-negative long long size the scaled value is below 2^53, so "%.1f" prints it exactly followed by ".0". The model prints the integer and ".0".
- FormatSize: requires a non-negative size. A negative size is never scaled, so below -2^53 the `(double)` cast would round it and the text could exceed the buffer; the program never passes one, since collected sizes are at least 1.
- `main` (du-lite.c:250-286): argument checks, `strtol`, the `long` to `int` conversion of N and the trailing-slash removal. `is_valid_directory` is not part of this model. `SweepDirectory` is given the directory `opendir` opens; the caller has validated it.
- The helpers of `utils.h` are not part of this model. `is_dot_directory` is a name test for "." and "..". `create_pathname` is `JoinPath`, with a per-entry flag for its failure. `duplicate` is a plain copy.
- Overflow of the `long long` running total: sizes are unbounded integers.
- The order of entries with equal sizes after `qsort`, which is unspecified: contracts state only sortedness and permutation.
- Running the sweep twice gives the same output. This holds because every member is a deterministic function of the tree; no lemma states it.
