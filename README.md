# PAR2 recovery-file names

A model of `RecoveryFile` from Parchive's PAR2 library. It covers two operations.

- `FromFilename` looks at the leaf name of a recovery file and finds its set name. For a volume file it also finds the range of recovery-block exponents that the name announces. A volume file is `<set>.vol<start>+<count>.par2`, and the range is `start .. start + count - 1`. It does this by matching the pattern `(.+?)(?:\.vol(\d+)\+(\d+))*(\.PAR2|\.par2)` and running `long.TryParse` on the last `.vol` captures.
- `FromDirectory` goes through a directory listing and keeps the files whose extension is `.par2`. It parses each one and groups the records by set name with LINQ's `GroupBy`.

The project has five modules.

- `Options`: the `Option` type.
- `LongNumbers`: signed 64-bit `long` values, unchecked 64-bit wrap-around (`Wrap64`), decimal numerals, and `long.TryParse` on digit text.
- `VolumePattern`: the pattern, matched the way `Regex.Match` does it.
  - It tries the leftmost start position first.
  - Group 1 is as short as possible (lazy).
  - The repetition takes whole `.vol<digits>+<digits>` segments (greedy).
  - Groups 2 and 3 hold the captures of the last repetition.
  - Anything after the extension is ignored, because the pattern is unanchored.
  - `.` does not match a newline.
  - `TailExact` shows that the greedy scan of the repetitions finds exactly the shape the pattern allows, so backtracking never changes the result.
- `Grouping`: `GroupBy` as a lookup built one element at a time. It is proved against independent reference definitions:
  - `Distinct` gives the keys in first-occurrence order;
  - `Filter` gives the elements of one key, in source order.
- `RecoveryFiles`: the record, `FromFilename`, the `.par2` extension filter, the `FromDirectory` loop, and the properties of the parser and the scan.

The code keeps the captures of the **last** `.vol` segment, because that is what `Group.Value` holds. So `a.vol1+2.vol3+4.par2` gives the range 3 .. 6. The model follows the code here, not a description that would take the first segment.

## Model

| member | source | states |
|---|---|---|
| RecoveryFiles.ExponentsFrom | Parchive.Library/PAR2/RecoveryFile.cs:49-61 | A range exists exactly when both captured texts parse as a `long`. Its minimum is the start. Its maximum is `start + count - 1` wrapped to 64 bits. |
| RecoveryFiles.FromMatch | Parchive.Library/PAR2/RecoveryFile.cs:47-68 | When the match is group 1 = `n` followed by repetitions `segs`, the record is the full path, `n`, and the range from the last repetition (none when there is no repetition). |
| RecoveryFiles.ComposedName | Parchive.Library/PAR2/RecoveryFile.cs:34-68 | Take a leaf `n + repetitions + extension + anything`, where `n` is non-empty, has no dot after its first character and has no newline. It parses to set name `n` and to the range of its last repetition. |
| RecoveryFiles.PlainFile | Parchive.Library/PAR2/RecoveryFile.cs:34-68 | `n.par2` or `n.PAR2`, optionally followed by more text, gives set name `n` and no range, because the empty captures fail `TryParse`. |
| RecoveryFiles.RoundTrip | Parchive.Library/PAR2/RecoveryFile.cs:34-68 | `n.vol<start>+<count>.par2`, with any number of leading zeros on either number, gives back `n` and the full path. It gives the range `start .. Wrap64(start + count - 1)` when both numbers fit in a `long`, and no range otherwise. |
| RecoveryFiles.RoundTripInRange | Parchive.Library/PAR2/RecoveryFile.cs:54-60 | Without overflow the range is exactly `start .. start + count - 1`. With a count of zero the maximum is below the minimum. |
| RecoveryFiles.RoundTripWraps | Parchive.Library/PAR2/RecoveryFile.cs:56-60 | When `start + count - 1` passes `long.MaxValue`, the maximum wraps to `start + count - 1 - 2^64`, which is below the minimum. |
| RecoveryFiles.OverflowDegrades | Parchive.Library/PAR2/RecoveryFile.cs:54 | A start or count above `long.MaxValue` gives no range, and the set name is still `n`. |
| RecoveryFiles.NoPatternNoName | Parchive.Library/PAR2/RecoveryFile.cs:47-68 | A leaf with no `.par2`/`.PAR2` at index 1 or later gives set name `""` and no range, and no error. |
| RecoveryFiles.UnmatchedExamples | Parchive.Library/PAR2/RecoveryFile.cs:34-68 | `noext`, `a.Par2` and `.par2` each give `""` and no range. |
| RecoveryFiles.ZeroCountExample | Parchive.Library/PAR2/RecoveryFile.cs:56-60 | `a.vol005+000.par2` gives `a` and the range 5 .. 4. Nothing checks that the minimum is at most the maximum. |
| RecoveryFiles.LastSegmentExample | Parchive.Library/PAR2/RecoveryFile.cs:34-68 | `a.vol1+2.vol3+4.par2` gives `a` and the range 3 .. 6, taken from the last segment. |
| RecoveryFiles.TrailingTextExample | Parchive.Library/PAR2/RecoveryFile.cs:34-47 | `a.par2.bak` gives `a` and no range. |
| RecoveryFiles.UpperCaseSkippedByScan | Parchive.Library/PAR2/RecoveryFile.cs:84 | `a.PAR2` parses to `a`, but the directory scan keeps nothing from a listing that holds only this file. |
| RecoveryFiles.ExtensionIsPar2 | Parchive.Library/PAR2/RecoveryFile.cs:84 | The extension equals `.par2` if and only if the leaf ends in the lower-case `.par2`. |
| RecoveryFiles.FromDirectory | Parchive.Library/PAR2/RecoveryFile.cs:76-91 | The result is the grouping, by set name, of the parsed `.par2` entries in listing order. The group keys are the distinct names, listed once each in first-occurrence order. Each group holds exactly the records with its name, in listing order. No record is lost or repeated. |
| RecoveryFiles.Par2EntriesExactly | Parchive.Library/PAR2/RecoveryFile.cs:80-88 | The filtered listing holds every entry whose name ends in `.par2` and nothing else. |
| RecoveryFiles.RetainedIsParsedPar2Entries | Parchive.Library/PAR2/RecoveryFile.cs:78-88 | The list the loop builds is the `.par2` entries, each parsed, in listing order. |
| RecoveryFiles.GroupCountIsNameCount | Parchive.Library/PAR2/RecoveryFile.cs:90 | There are as many groups as there are distinct set names. |
| Grouping.GroupByKeysAreDistinct | Parchive.Library/PAR2/RecoveryFile.cs:90 | The group keys are the source's keys, each once, in order of first occurrence. |
| Grouping.GroupByKeys | Parchive.Library/PAR2/RecoveryFile.cs:90 | No key appears twice, the keys follow first-occurrence order, and every element's key has a group. |
| Grouping.GroupByIsReference | Parchive.Library/PAR2/RecoveryFile.cs:90 | Each group holds exactly the source elements with its key, in source order. |
| Grouping.GroupBySize | Parchive.Library/PAR2/RecoveryFile.cs:90 | The groups together hold as many elements as the source. |
| Grouping.GroupByCount | Parchive.Library/PAR2/RecoveryFile.cs:90 | The number of groups is the number of distinct keys. |
| Grouping.GroupByCovers | Parchive.Library/PAR2/RecoveryFile.cs:90 | Every source element is in the group of its key. |
| Grouping.GroupByOnlyMembers | Parchive.Library/PAR2/RecoveryFile.cs:90 | A group holds only source elements with its key. |
| VolumePattern.Match | Parchive.Library/PAR2/RecoveryFile.cs:34 | A match starts at the leftmost position where the pattern can match, and its group 1 is the shortest possible there. There is no match exactly when no position and length fit. |
| VolumePattern.ShortestPrefix | Parchive.Library/PAR2/RecoveryFile.cs:34 | With no newline in the name, group 1 is the shortest non-empty prefix after which the repetitions and the extension follow. There is no match exactly when no such prefix exists. |
| VolumePattern.TailExact | Parchive.Library/PAR2/RecoveryFile.cs:34 | The greedy scan after group 1 succeeds with repetitions `gs` if and only if the text there is `gs` followed by `.par2` or `.PAR2`. |
| VolumePattern.ParsesUnique | Parchive.Library/PAR2/RecoveryFile.cs:34 | Only one sequence of repetitions followed by an extension can start at a given position. |
| VolumePattern.NoExtensionNoMatch | Parchive.Library/PAR2/RecoveryFile.cs:34 | Without an extension at index 1 or later there is no match. |
| LongNumbers.Wrap64 | Parchive.Library/PAR2/RecoveryFile.cs:59 | The result is a `long`. A value that is already a `long` is unchanged. A value past `long.MaxValue` by less than 2^64 loses 2^64. |
| LongNumbers.Wrap64Congruent | Parchive.Library/PAR2/RecoveryFile.cs:59 | Wrapping keeps the value modulo 2^64. |
| LongNumbers.TryParsePadded | Parchive.Library/PAR2/RecoveryFile.cs:54 | `TryParse` of a decimal numeral with leading zeros gives its value when that fits in a `long`, and fails otherwise. |
| LongNumbers.DecimalRoundTrip | Parchive.Library/PAR2/RecoveryFile.cs:54 | Reading back a canonical decimal numeral gives the number. |
| LongNumbers.LeadingZerosIgnored | Parchive.Library/PAR2/RecoveryFile.cs:54 | Leading zeros do not change a numeral's value. |

## Left out

- Directory enumeration and `FileInfo` are left out. `Directory.EnumerateFiles` is modelled as a listing given as a parameter. `FileInfo` is a pair of full path and leaf name supplied with each entry, so path normalisation, filesystem errors and the order the operating system returns are not modelled.
- Unicode digits are left out: `\d` is taken to be an ASCII digit. .NET also accepts other Unicode decimal digits, which `long.TryParse` would then reject.
- `long.TryParse` is modelled only on digit text. That covers everything the `\d+` captures and an empty group can give it. Whitespace, signs and culture handling never arise.
- `Range<long>` is modelled as a pair datatype, and its `null` as `None`. Its class is not part of this model.
- LINQ's deferred evaluation is left out: `FromDirectory` returns the groups already built.
- RecoveryFiles.RoundTrip, RecoveryFiles.ComposedName and RecoveryFiles.PlainFile require a set name that is non-empty, has no dot after its first character and has no newline. With a dot inside the name, the lazy group 1 may stop at an earlier `.par2` or `.vol`. With a newline, the match may start later. `Match` itself models both cases.
- RecoveryFiles.OverflowDegrades, RecoveryFiles.RoundTripInRange and RecoveryFiles.RoundTripWraps take the same name restriction as RecoveryFiles.RoundTrip.
- The unused `using` directives, including `System.Threading.Tasks`, have nothing to model.
