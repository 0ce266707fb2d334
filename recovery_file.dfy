/**
 * A PAR2 recovery file as the library sees it before opening it: the path,
 * the set name taken from the file name, and the range of recovery-block
 * exponents that the `.volSTART+COUNT` part of the name announces; and the
 * directory scan that collects the `.par2` files of a directory and groups
 * them by set name.
 */
module RecoveryFiles {
  import opened Options
  import opened LongNumbers
  import opened VolumePattern
  import opened Grouping

  /** `Range<long>`: the exponents from `minimum` to `maximum`. */
  datatype Range = Range(minimum: int, maximum: int)

  /** The record built for one file; a missing range is `None` where the original holds `null`. */
  datatype RecoveryFile = RecoveryFile(filename: string, name: string, exponents: Option<Range>)

  /**
   * What a `FileInfo` reports about a path: the full path and the leaf name
   * (the part after the last directory separator). Both come from the
   * operating system and are given here.
   */
  datatype FileInfo = FileInfo(fullName: string, name: string)

  function SetName(f: RecoveryFile): string {
    f.name
  }

  /**
   * The range announced by the last `.volSTART+COUNT` captures: both must
   * parse as a `long`, and the maximum `start + count - 1` is computed in
   * unchecked 64-bit arithmetic.
   */
  function ExponentsFrom(c: VolSegment): (r: Option<Range>)
    requires AllDigits(c.start) && AllDigits(c.count)
    ensures r.Some? <==> TryParseLong(c.start).Some? && TryParseLong(c.count).Some?
    ensures r.Some? ==>
      && r.value.minimum == NumeralValue(c.start)
      && r.value.maximum == Wrap64(NumeralValue(c.start) + NumeralValue(c.count) - 1)
  {
    match (TryParseLong(c.start), TryParseLong(c.count))
    case (Some(start), Some(count)) => Some(Range(start, Wrap64(start + count - 1)))
    case _ => None
  }

  /** `RecoveryFile.FromFilename`: match the leaf name against the pattern and read the groups. */
  function FromFilename(fi: FileInfo): RecoveryFile
  {
    var m := Match(fi.name);
    RecoveryFile(fi.fullName, NameGroup(fi.name, m), ExponentsFrom(Captures(m)))
  }

  // ------------------------------------------------------------ file names

  /** The index of the last dot in `leaf[..i]`, if there is one. */
  function LastDot(leaf: string, i: nat): (r: Option<nat>)
    requires i <= |leaf|
    ensures r.Some? ==> r.value < i && leaf[r.value] == '.'
    ensures r.Some? ==> forall k :: r.value < k < i ==> leaf[k] != '.'
    ensures r.None? ==> forall k :: 0 <= k < i ==> leaf[k] != '.'
  {
    if i == 0 then None else if leaf[i - 1] == '.' then Some(i - 1) else LastDot(leaf, i - 1)
  }

  /** `FileInfo.Extension` of a leaf name: from its last dot on, or empty when there is none or the dot ends the name. */
  function Extension(leaf: string): string
  {
    match LastDot(leaf, |leaf|)
    case None => ""
    case Some(d) => if d == |leaf| - 1 then "" else leaf[d..]
  }

  predicate EndsWithPar2(leaf: string) {
    |leaf| >= 5 && leaf[|leaf| - 5..] == ".par2"
  }

  /** The directory filter keeps a file exactly when its name ends in the lower-case `.par2`. */
  lemma ExtensionIsPar2(leaf: string)
    ensures Extension(leaf) == ".par2" <==> EndsWithPar2(leaf)
  {
    var n := |leaf|;
    if EndsWithPar2(leaf) {
      var tail := leaf[n - 5..];
      assert leaf[n - 5] == tail[0] == '.';
      assert forall k :: n - 5 < k < n ==> leaf[k] == tail[k - (n - 5)];
      var r := LastDot(leaf, n);
      assert r.Some? && r.value >= n - 5;
    }
    if Extension(leaf) == ".par2" {
      var d := LastDot(leaf, n).value;
      assert |leaf[d..]| == 5;
    }
  }

  // ------------------------------------------------------------ the directory scan

  /** The records the scan collects, in enumeration order. */
  function Retained(entries: seq<FileInfo>): seq<RecoveryFile>
  {
    if |entries| == 0 then []
    else
      var last := entries[|entries| - 1];
      Retained(entries[..|entries| - 1]) + if Extension(last.name) == ".par2" then [FromFilename(last)] else []
  }

  /**
   * `RecoveryFile.FromDirectory` over the listing `entries`: keep the files
   * whose extension is `.par2`, parse each, and group the records by set name.
   */
  method FromDirectory(entries: seq<FileInfo>) returns (groups: seq<Grouping<string, RecoveryFile>>)
    ensures groups == GroupBy(Retained(entries), SetName)
    ensures KeysOf(groups) == Distinct(KeySeq(Retained(entries), SetName))
    ensures NoDuplicates(KeysOf(groups))
    ensures InFirstOccurrenceOrder(KeysOf(groups), KeySeq(Retained(entries), SetName))
    ensures forall i :: 0 <= i < |groups| ==> groups[i].elements == Filter(Retained(entries), SetName, groups[i].key)
    ensures TotalSize(groups) == |Retained(entries)|
  {
    var recoveryFiles: seq<RecoveryFile> := [];
    for i := 0 to |entries|
      invariant recoveryFiles == Retained(entries[..i])
    {
      var fi := entries[i];
      RetainedSnoc(entries, i);
      if Extension(fi.name) == ".par2" {
        recoveryFiles := recoveryFiles + [FromFilename(fi)];
      }
    }
    assert entries[..|entries|] == entries;
    groups := GroupBy(recoveryFiles, SetName);
    GroupByKeysAreDistinct(recoveryFiles, SetName);
    GroupByIsReference(recoveryFiles, SetName);
    GroupByKeys(recoveryFiles, SetName);
    GroupBySize(recoveryFiles, SetName);
  }

  /** There are as many groups as distinct set names among the records. */
  lemma GroupCountIsNameCount(files: seq<RecoveryFile>)
    ensures |GroupBy(files, SetName)| == |set f | f in files :: f.name|
  {
    GroupByCount(files, SetName);
    var names := set f | f in files :: f.name;
    forall y | y in KeySet(files, SetName) ensures y in names {
      var f :| f in files && y == SetName(f);
    }
    forall y | y in names ensures y in KeySet(files, SetName) {
      var f :| f in files && y == f.name;
      assert SetName(f) == y;
    }
    assert KeySet(files, SetName) == names;
  }

  /** One more entry of the listing: its record is appended when its extension is `.par2`. */
  lemma RetainedSnoc(entries: seq<FileInfo>, i: nat)
    requires i < |entries|
    ensures Retained(entries[..i + 1]) ==
      Retained(entries[..i]) + if Extension(entries[i].name) == ".par2" then [FromFilename(entries[i])] else []
  {
    assert entries[..i + 1][..i] == entries[..i];
  }

  /** The entries whose name ends in `.par2`, in listing order. */
  function Par2Entries(entries: seq<FileInfo>): seq<FileInfo>
  {
    if |entries| == 0 then []
    else
      var last := entries[|entries| - 1];
      Par2Entries(entries[..|entries| - 1]) + if EndsWithPar2(last.name) then [last] else []
  }

  function ParseAll(entries: seq<FileInfo>): (rs: seq<RecoveryFile>)
    ensures |rs| == |entries| && forall i :: 0 <= i < |entries| ==> rs[i] == FromFilename(entries[i])
  {
    seq(|entries|, i requires 0 <= i < |entries| => FromFilename(entries[i]))
  }

  /** `Par2Entries` keeps every entry whose name ends in `.par2`, and nothing else. */
  lemma {:induction false} Par2EntriesExactly(entries: seq<FileInfo>)
    ensures forall e :: e in Par2Entries(entries) ==> e in entries && EndsWithPar2(e.name)
    ensures forall e :: e in entries && EndsWithPar2(e.name) ==> e in Par2Entries(entries)
    decreases |entries|
  {
    if |entries| > 0 {
      var init := entries[..|entries| - 1];
      Par2EntriesExactly(init);
      assert entries == init + [entries[|entries| - 1]];
    }
  }

  /** The scan's records are the entries ending in `.par2`, each parsed, in listing order. */
  lemma {:induction false} RetainedIsParsedPar2Entries(entries: seq<FileInfo>)
    ensures Retained(entries) == ParseAll(Par2Entries(entries))
    decreases |entries|
  {
    if |entries| > 0 {
      var init, last := entries[..|entries| - 1], entries[|entries| - 1];
      RetainedIsParsedPar2Entries(init);
      ExtensionIsPar2(last.name);
      if EndsWithPar2(last.name) {
        assert ParseAll(Par2Entries(entries)) == ParseAll(Par2Entries(init)) + [FromFilename(last)];
      }
    }
  }

  // ------------------------------------------------------------ parsing names

  /** What the original reads from a successful match: group 1 and the last captures of groups 2 and 3. */
  lemma FromMatch(fi: FileInfo, n: string, segs: seq<VolSegment>)
    requires Match(fi.name) == Matched(0, |n|, segs)
    requires |n| <= |fi.name| && fi.name[..|n|] == n
    ensures AllWellFormed(segs)
    ensures FromFilename(fi) == RecoveryFile(fi.fullName, n, if |segs| == 0 then None else ExponentsFrom(segs[|segs| - 1]))
  {
    assert fi.name[0..|n|] == n;
  }

  /** The text `n + Render(segs) + ext + rest` holds the repetitions and the extension right after `n`. */
  lemma ParsesAfterName(s: string, n: string, segs: seq<VolSegment>, ext: string, rest: string)
    requires s == n + Render(segs) + ext + rest
    requires AllWellFormed(segs) && IsExtension(ext)
    ensures |n| <= |s| && s[..|n|] == n
    ensures Parses(s, |n|, segs)
  {
    var j := |n| + |Render(segs)|;
    assert s[|n|..j] == Render(segs);
    assert s[j..j + 5] == ext;
    forall t | 0 <= t < 5 ensures s[j + t] == ext[t] {
      assert s[j..j + 5][t] == s[j + t];
    }
  }

  /**
   * When `s` starts with `n` and the repetitions `segs` and an extension
   * follow it, and `n` is non-empty with no newline and no dot after its
   * first character, the match is `n` followed by exactly `segs`: an
   * earlier end of group 1 would need a dot there.
   */
  lemma MatchAfterName(s: string, n: string, segs: seq<VolSegment>)
    requires |n| > 0 && (forall k :: 0 < k < |n| ==> n[k] != '.') && (forall k :: 0 <= k < |n| ==> n[k] != '\n')
    requires |n| <= |s| && s[..|n|] == n && Parses(s, |n|, segs)
    ensures Match(s) == Matched(0, |n|, segs)
  {
    TailComplete(s, |n|, segs);
    assert forall k :: 0 <= k < |n| ==> s[k] == n[k];
    assert MatchesAt(s, 0, |n|);
    forall q | 1 <= q < |n| ensures Tail(s, q).None? {
      if Tail(s, q).Some? {
        TailNeedsDot(s, q);
      }
    }
    MatchIsPrefix(s, |n|, segs);
  }

  /**
   * A leaf name built as `n`, then volume parts, then the extension, then any
   * text: the set name is `n` and the range is read from the last volume
   * part, or absent when there is none. `n` must be non-empty and hold no
   * newline, and no dot after its first character (a dot there could start
   * the volume parts or the extension earlier).
   */
  lemma ComposedName(fi: FileInfo, n: string, segs: seq<VolSegment>, ext: string, rest: string)
    requires |n| > 0 && (forall k :: 0 < k < |n| ==> n[k] != '.') && (forall k :: 0 <= k < |n| ==> n[k] != '\n')
    requires AllWellFormed(segs) && IsExtension(ext)
    requires fi.name == n + Render(segs) + ext + rest
    ensures FromFilename(fi) == RecoveryFile(fi.fullName, n, if |segs| == 0 then None else ExponentsFrom(segs[|segs| - 1]))
  {
    ParsesAfterName(fi.name, n, segs, ext, rest);
    MatchAfterName(fi.name, n, segs);
    FromMatch(fi, n, segs);
  }

  /** A plain `.par2`/`.PAR2` file names its set and announces no exponents. */
  lemma PlainFile(fi: FileInfo, n: string, ext: string, rest: string)
    requires |n| > 0 && (forall k :: 0 < k < |n| ==> n[k] != '.') && (forall k :: 0 <= k < |n| ==> n[k] != '\n')
    requires IsExtension(ext) && fi.name == n + ext + rest
    ensures FromFilename(fi) == RecoveryFile(fi.fullName, n, None)
  {
    assert Render([]) == "";
    assert fi.name == n + Render([]) + ext + rest;
    ComposedName(fi, n, [], ext, rest);
  }

  /** The leaf `n.volSTART+COUNT` followed by an extension, each number written after `zs` or `zc` leading zeros. */
  function VolumeName(n: string, zs: nat, start: nat, zc: nat, count: nat, ext: string): string {
    n + SegmentText(VolSegment(Zeros(zs) + Decimal(start), Zeros(zc) + Decimal(count))) + ext
  }

  /**
   * Round trip: a volume file name gives back its set name `n`, and the
   * range `START .. START + COUNT - 1` (wrapped to 64 bits) when both
   * numbers fit in a `long`, no range otherwise; leading zeros change
   * nothing.
   */
  lemma RoundTrip(fi: FileInfo, n: string, zs: nat, start: nat, zc: nat, count: nat, ext: string)
    requires |n| > 0 && (forall k :: 0 < k < |n| ==> n[k] != '.') && (forall k :: 0 <= k < |n| ==> n[k] != '\n')
    requires IsExtension(ext) && fi.name == VolumeName(n, zs, start, zc, count, ext)
    ensures FromFilename(fi).name == n && FromFilename(fi).filename == fi.fullName
    ensures FromFilename(fi).exponents ==
      if start <= MaxLong && count <= MaxLong then Some(Range(start, Wrap64(start + count - 1))) else None
  {
    var g := VolSegment(Zeros(zs) + Decimal(start), Zeros(zc) + Decimal(count));
    VolumeNameSpelled(n, zs, start, zc, count, ext);
    ComposedName(fi, n, [g], ext, "");
    VolumeExponents(zs, start, zc, count);
  }

  /** A volume file name is its set name, one repetition and the extension. */
  lemma VolumeNameSpelled(n: string, zs: nat, start: nat, zc: nat, count: nat, ext: string)
    ensures var g := VolSegment(Zeros(zs) + Decimal(start), Zeros(zc) + Decimal(count));
      WellFormed(g) && VolumeName(n, zs, start, zc, count, ext) == n + Render([g]) + ext + ""
  {
    var g := VolSegment(Zeros(zs) + Decimal(start), Zeros(zc) + Decimal(count));
    TryParsePadded(zs, start);
    TryParsePadded(zc, count);
    SpelledOne(n, g, ext, VolumeName(n, zs, start, zc, count, ext));
  }

  /** The range read from padded decimal numbers. */
  lemma VolumeExponents(zs: nat, start: nat, zc: nat, count: nat)
    ensures AllDigits(Zeros(zs) + Decimal(start)) && AllDigits(Zeros(zc) + Decimal(count))
    ensures ExponentsFrom(VolSegment(Zeros(zs) + Decimal(start), Zeros(zc) + Decimal(count))) ==
      if start <= MaxLong && count <= MaxLong then Some(Range(start, Wrap64(start + count - 1))) else None
  {
    TryParsePadded(zs, start);
    TryParsePadded(zc, count);
    ExponentsOfValues(Zeros(zs) + Decimal(start), Zeros(zc) + Decimal(count), start, count);
  }

  /** The range read from two numerals whose parsed values are known. */
  lemma ExponentsOfValues(a: string, b: string, start: nat, count: nat)
    requires AllDigits(a) && AllDigits(b)
    requires TryParseLong(a) == (if start <= MaxLong then Some(start) else None)
    requires TryParseLong(b) == (if count <= MaxLong then Some(count) else None)
    ensures ExponentsFrom(VolSegment(a, b)) ==
      if start <= MaxLong && count <= MaxLong then Some(Range(start, Wrap64(start + count - 1))) else None
  {
  }

  /** Without overflow the range is exactly `START .. START + COUNT - 1`; with `COUNT` zero it is empty. */
  lemma RoundTripInRange(fi: FileInfo, n: string, zs: nat, start: nat, zc: nat, count: nat, ext: string)
    requires |n| > 0 && (forall k :: 0 < k < |n| ==> n[k] != '.') && (forall k :: 0 <= k < |n| ==> n[k] != '\n')
    requires IsExtension(ext) && fi.name == VolumeName(n, zs, start, zc, count, ext)
    requires start <= MaxLong && count <= MaxLong && start + count - 1 <= MaxLong
    ensures FromFilename(fi).exponents == Some(Range(start, start + count - 1))
    ensures count == 0 ==> FromFilename(fi).exponents.value.maximum < FromFilename(fi).exponents.value.minimum
  {
    RoundTrip(fi, n, zs, start, zc, count, ext);
  }

  /** When `START + COUNT - 1` passes `long.MaxValue`, the maximum wraps around below the minimum. */
  lemma RoundTripWraps(fi: FileInfo, n: string, zs: nat, start: nat, zc: nat, count: nat, ext: string)
    requires |n| > 0 && (forall k :: 0 < k < |n| ==> n[k] != '.') && (forall k :: 0 <= k < |n| ==> n[k] != '\n')
    requires IsExtension(ext) && fi.name == VolumeName(n, zs, start, zc, count, ext)
    requires start <= MaxLong && count <= MaxLong && start + count - 1 > MaxLong
    ensures FromFilename(fi).exponents == Some(Range(start, start + count - 1 - TwoTo64))
    ensures FromFilename(fi).exponents.value.maximum < FromFilename(fi).exponents.value.minimum
  {
    RoundTrip(fi, n, zs, start, zc, count, ext);
    assert MaxLong < start + count - 1 <= MaxLong + TwoTo64;
  }

  /** A number that does not fit in a `long` makes `TryParse` fail: the range is absent, the set name is kept. */
  lemma OverflowDegrades(fi: FileInfo, n: string, zs: nat, start: nat, zc: nat, count: nat, ext: string)
    requires |n| > 0 && (forall k :: 0 < k < |n| ==> n[k] != '.') && (forall k :: 0 <= k < |n| ==> n[k] != '\n')
    requires IsExtension(ext) && fi.name == VolumeName(n, zs, start, zc, count, ext)
    requires start > MaxLong || count > MaxLong
    ensures FromFilename(fi) == RecoveryFile(fi.fullName, n, None)
  {
    RoundTrip(fi, n, zs, start, zc, count, ext);
  }

  /** A leaf with no extension after its first character does not match: empty set name, no range. */
  lemma NoPatternNoName(fi: FileInfo)
    requires forall q :: 1 <= q ==> !ExtensionAt(fi.name, q)
    ensures FromFilename(fi) == RecoveryFile(fi.fullName, "", None)
  {
    NoExtensionNoMatch(fi.name);
  }

  // ------------------------------------------------------------ examples

  /** `noext`, `a.Par2` (mixed case) and `.par2` (nothing before the extension) all give `""` and no range. */
  lemma UnmatchedExamples(fi: FileInfo)
    requires fi.name in {"noext", "a.Par2", ".par2"}
    ensures FromFilename(fi) == RecoveryFile(fi.fullName, "", None)
  {
    NoPatternNoName(fi);
  }

  /** `a.vol005+000.par2`: a count of zero gives the empty range 5 .. 4. */
  lemma ZeroCountExample(fi: FileInfo)
    requires fi.name == "a.vol005+000.par2"
    ensures FromFilename(fi) == RecoveryFile(fi.fullName, "a", Some(Range(5, 4)))
  {
    var g := VolSegment("005", "000");
    SpelledOne("a", g, ".par2", fi.name);
    ComposedName(fi, "a", [g], ".par2", "");
    ZeroCountRange();
  }

  lemma SpelledOne(n: string, g: VolSegment, ext: string, leaf: string)
    requires leaf == n + SegmentText(g) + ext
    ensures leaf == n + Render([g]) + ext + ""
  {
    assert Render([g]) == SegmentText(g) + Render([]);
  }

  lemma ZeroCountRange()
    ensures ExponentsFrom(VolSegment("005", "000")) == Some(Range(5, 4))
  {
    assert "005" == Zeros(2) + Decimal(5);
    assert "000" == Zeros(2) + Decimal(0);
    VolumeExponents(2, 5, 2, 0);
  }

  /** `a.vol1+2.vol3+4.par2`: the last volume part wins, giving 3 .. 6. */
  lemma LastSegmentExample(fi: FileInfo)
    requires fi.name == "a.vol1+2.vol3+4.par2"
    ensures FromFilename(fi) == RecoveryFile(fi.fullName, "a", Some(Range(3, 6)))
  {
    var g, h := VolSegment("1", "2"), VolSegment("3", "4");
    SpelledTwo("a", g, h, ".par2", fi.name);
    ComposedName(fi, "a", [g, h], ".par2", "");
    LastSegmentRange();
  }

  lemma SpelledTwo(n: string, g: VolSegment, h: VolSegment, ext: string, leaf: string)
    requires leaf == n + SegmentText(g) + SegmentText(h) + ext
    ensures leaf == n + Render([g, h]) + ext + ""
  {
    assert [g, h][1..] == [h];
    assert Render([h]) == SegmentText(h) + Render([]);
    assert Render([g, h]) == SegmentText(g) + Render([h]);
  }

  lemma LastSegmentRange()
    ensures ExponentsFrom(VolSegment("3", "4")) == Some(Range(3, 6))
  {
    assert "3" == Zeros(0) + Decimal(3);
    assert "4" == Zeros(0) + Decimal(4);
    VolumeExponents(0, 3, 0, 4);
  }

  /** `a.par2.bak`: the match need not reach the end of the name. */
  lemma TrailingTextExample(fi: FileInfo)
    requires fi.name == "a.par2.bak"
    ensures FromFilename(fi) == RecoveryFile(fi.fullName, "a", None)
  {
    assert fi.name == "a" + ".par2" + ".bak";
    PlainFile(fi, "a", ".par2", ".bak");
  }

  /** `a.PAR2` parses, but the directory scan passes it over: its extension is not `.par2`. */
  lemma UpperCaseSkippedByScan(fi: FileInfo)
    requires fi.name == "a.PAR2"
    ensures FromFilename(fi) == RecoveryFile(fi.fullName, "a", None)
    ensures Retained([fi]) == []
  {
    assert fi.name == "a" + ".PAR2" + "";
    PlainFile(fi, "a", ".PAR2", "");
    ExtensionIsPar2(fi.name);
    assert [fi][..0] == [];
  }
}
