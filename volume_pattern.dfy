/**
 * The file-name pattern `(.+?)(?:\.vol(\d+)\+(\d+))*(\.PAR2|\.par2)` of a PAR2
 * recovery file, matched the way `Regex.Match` does it: the leftmost start
 * position wins, group 1 is then as short as possible, the repetition takes
 * whole `.vol<start>+<count>` segments, and anything after the extension is
 * not looked at (the pattern is unanchored). `.` matches every character but
 * '\n'; `\d` is taken to be an ASCII digit.
 */
module VolumePattern {
  import opened Options
  import opened LongNumbers

  /** One repetition `.vol<start>+<count>`: the texts it gives groups 2 and 3. */
  datatype VolSegment = VolSegment(start: string, count: string)

  predicate WellFormed(g: VolSegment) {
    IsNumeral(g.start) && IsNumeral(g.count)
  }

  predicate AllWellFormed(gs: seq<VolSegment>) {
    forall i :: 0 <= i < |gs| ==> WellFormed(gs[i])
  }

  function SegmentText(g: VolSegment): string {
    ".vol" + g.start + "+" + g.count
  }

  /** The text of a sequence of repetitions, one after another. */
  function Render(gs: seq<VolSegment>): string {
    if |gs| == 0 then "" else SegmentText(gs[0]) + Render(gs[1..])
  }

  /** The alternation `(\.PAR2|\.par2)`: all upper or all lower case, nothing mixed. */
  predicate IsExtension(e: string) {
    e == ".PAR2" || e == ".par2"
  }

  /** `IsExtension(s[i..i + 5])`, compared character by character. */
  predicate ExtensionAt(s: string, i: nat) {
    && i + 5 <= |s| && s[i] == '.'
    && ((s[i + 1] == 'P' && s[i + 2] == 'A' && s[i + 3] == 'R' && s[i + 4] == '2') ||
        (s[i + 1] == 'p' && s[i + 2] == 'a' && s[i + 3] == 'r' && s[i + 4] == '2'))
  }

  /**
   * `s[i..]` is, from its start, the repetitions `gs` followed by the
   * extension: the shape the pattern demands right after group 1.
   */
  predicate Parses(s: string, i: nat, gs: seq<VolSegment>) {
    && AllWellFormed(gs)
    && i + |Render(gs)| <= |s|
    && s[i..i + |Render(gs)|] == Render(gs)
    && ExtensionAt(s, i + |Render(gs)|)
  }

  /** The longest run of digits starting at `i`: what a greedy `\d+` consumes. */
  function DigitRun(s: string, i: nat): (n: nat)
    requires i <= |s|
    ensures i + n <= |s|
    decreases |s| - i
  {
    if i < |s| && IsDigit(s[i]) then 1 + DigitRun(s, i + 1) else 0
  }

  /** One repetition `\.vol(\d+)\+(\d+)` at `i`, and where it ends. */
  function SegmentAt(s: string, i: nat): (r: Option<(VolSegment, nat)>)
    requires i <= |s|
    ensures r.Some? ==> i < r.value.1 <= |s|
  {
    if i + 4 <= |s| && s[i] == '.' && s[i + 1] == 'v' && s[i + 2] == 'o' && s[i + 3] == 'l' then
      var a := DigitRun(s, i + 4);
      var p := i + 4 + a;
      if a > 0 && p < |s| && s[p] == '+' then
        var b := DigitRun(s, p + 1);
        if b > 0 then Some((VolSegment(s[i + 4..p], s[p + 1..p + 1 + b]), p + 1 + b)) else None
      else None
    else None
  }

  /**
   * What follows group 1 from position `i`: the greedy repetition, which must
   * be followed by the extension. The result lists the repetitions matched.
   */
  function Tail(s: string, i: nat): Option<seq<VolSegment>>
    requires i <= |s|
    decreases |s| - i
  {
    match SegmentAt(s, i)
    case Some((g, j)) =>
      (match Tail(s, j)
       case Some(gs) => Some([g] + gs)
       case None => None)
    case None =>
      if ExtensionAt(s, i) then Some([]) else None
  }

  /**
   * Group 1 may span `s[st..q]`: it is non-empty, holds no newline, and the
   * rest of the pattern matches at `q` (by `TailExact`, `Tail(s, q)` succeeds
   * exactly when some `Parses(s, q, gs)` holds).
   */
  predicate MatchesAt(s: string, st: nat, q: nat) {
    && st < q <= |s|
    && (forall k :: st <= k < q ==> s[k] != '\n')
    && Tail(s, q).Some?
  }

  /** A match of the whole pattern: group 1 is `s[nameStart..nameEnd]`, the repetitions follow it. */
  datatype MatchResult = NoMatch | Matched(nameStart: nat, nameEnd: nat, segments: seq<VolSegment>)

  /**
   * The lazy `(.+?)` from `st`: try ends `q`, `q + 1`, ... and stop at the
   * first that lets the rest match, or when a newline would have to be
   * consumed or the text runs out.
   */
  function LazyEnd(s: string, st: nat, q: nat): (r: Option<nat>)
    requires st < q <= |s| + 1
    requires forall k :: st <= k < q - 1 ==> s[k] != '\n'
    ensures r.Some? ==> q <= r.value && MatchesAt(s, st, r.value)
    decreases |s| + 1 - q
  {
    if q > |s| || s[q - 1] == '\n' then None
    else if Tail(s, q).Some? then Some(q)
    else LazyEnd(s, st, q + 1)
  }

  /** `Regex.Match`'s scan over start positions, leftmost first. */
  function MatchFrom(s: string, st: nat): (m: MatchResult)
    ensures m.Matched? ==> st <= m.nameStart && MatchesAt(s, m.nameStart, m.nameEnd)
    ensures m.Matched? ==> Tail(s, m.nameEnd) == Some(m.segments)
    decreases |s| - st
  {
    if st >= |s| then NoMatch
    else
      match LazyEnd(s, st, st + 1)
      case Some(q) => Matched(st, q, Tail(s, q).value)
      case None => MatchFrom(s, st + 1)
  }

  /**
   * The regex's match on a file name: the leftmost start, then the shortest
   * group 1, and the repetitions after it; `NoMatch` exactly when nothing
   * anywhere in `s` fits the pattern.
   */
  function Match(s: string): (m: MatchResult)
    ensures m.Matched? ==> MatchesAt(s, m.nameStart, m.nameEnd) && Parses(s, m.nameEnd, m.segments)
    ensures m.Matched? ==> forall st, q :: MatchesAt(s, st, q) ==>
      m.nameStart < st || (m.nameStart == st && m.nameEnd <= q)
    ensures m.NoMatch? <==> forall st, q :: !MatchesAt(s, st, q)
  {
    var m := MatchFrom(s, 0);
    MatchFromLeftmost(s, 0);
    if m.Matched? then TailSound(s, m.nameEnd); m else m
  }

  /** `Groups[1].Value`: the set name, or "" when there is no match. */
  function NameGroup(s: string, m: MatchResult): string
    requires m.Matched? ==> m.nameStart <= m.nameEnd <= |s|
  {
    if m.Matched? then s[m.nameStart..m.nameEnd] else ""
  }

  /** `Groups[2].Value` and `Groups[3].Value`: the last repetition's captures, "" when it never ran. */
  function Captures(m: MatchResult): (c: VolSegment)
    requires m.Matched? ==> AllWellFormed(m.segments)
    ensures AllDigits(c.start) && AllDigits(c.count)
  {
    if m.Matched? && |m.segments| > 0 then m.segments[|m.segments| - 1] else VolSegment("", "")
  }

  // ------------------------------------------------------------ the search

  /** The lazy group 1 ends at the first possible place after `q`, and finds nothing only when there is no such place. */
  lemma {:induction false} LazyEndFirst(s: string, st: nat, q: nat)
    requires st < q <= |s| + 1
    requires forall k :: st <= k < q - 1 ==> s[k] != '\n'
    ensures LazyEnd(s, st, q).Some? ==> forall q' :: q <= q' < LazyEnd(s, st, q).value ==> !MatchesAt(s, st, q')
    ensures LazyEnd(s, st, q).None? ==> forall q' :: q <= q' ==> !MatchesAt(s, st, q')
    decreases |s| + 1 - q
  {
    if q > |s| || s[q - 1] == '\n' {
    } else if Tail(s, q).None? {
      LazyEndFirst(s, st, q + 1);
    }
  }

  /** The scan returns the leftmost start that can match, with the shortest group 1 there. */
  lemma {:induction false} MatchFromLeftmost(s: string, st: nat)
    ensures MatchFrom(s, st).Matched? ==> forall st', q' :: st <= st' && MatchesAt(s, st', q') ==>
      MatchFrom(s, st).nameStart < st' || (MatchFrom(s, st).nameStart == st' && MatchFrom(s, st).nameEnd <= q')
    ensures MatchFrom(s, st).NoMatch? ==> forall st', q' :: st <= st' ==> !MatchesAt(s, st', q')
    decreases |s| - st
  {
    if st < |s| {
      LazyEndFirst(s, st, st + 1);
      if LazyEnd(s, st, st + 1).None? {
        MatchFromLeftmost(s, st + 1);
      }
    }
  }

  // ------------------------------------------- the part after group 1

  /** `DigitRun` stops exactly at the first non-digit. */
  lemma {:induction false} DigitRunMaximal(s: string, i: nat)
    requires i <= |s|
    ensures AllDigits(s[i..i + DigitRun(s, i)])
    ensures i + DigitRun(s, i) == |s| || !IsDigit(s[i + DigitRun(s, i)])
    decreases |s| - i
  {
    if i < |s| && IsDigit(s[i]) {
      DigitRunMaximal(s, i + 1);
      var n := DigitRun(s, i);
      assert s[i..i + n] == [s[i]] + s[i + 1..i + n];
    }
  }

  /** A greedy digit run is exactly as long as any maximal run of digits at the same place. */
  lemma DigitRunExact(s: string, i: nat, n: nat)
    requires i + n <= |s|
    requires AllDigits(s[i..i + n])
    requires i + n == |s| || !IsDigit(s[i + n])
    ensures DigitRun(s, i) == n
  {
    DigitRunMaximal(s, i);
    var m := DigitRun(s, i);
    forall k | i <= k < i + n ensures IsDigit(s[k]) {
      assert s[k] == s[i..i + n][k - i];
    }
    forall k | i <= k < i + m ensures IsDigit(s[k]) {
      assert s[k] == s[i..i + m][k - i];
    }
  }

  /** The pieces `SegmentAt` reads when it succeeds: `.vol`, a digit run, `+`, a digit run. */
  lemma SegmentAtParts(s: string, i: nat)
    requires i <= |s| && SegmentAt(s, i).Some?
    ensures var a := DigitRun(s, i + 4); var p := i + 4 + a; var b := DigitRun(s, p + 1);
      && 0 < a && 0 < b && p + 1 + b <= |s|
      && s[i..i + 4] == ".vol" && s[p] == '+'
      && SegmentAt(s, i) == Some((VolSegment(s[i + 4..p], s[p + 1..p + 1 + b]), p + 1 + b))
  {
    assert s[i..i + 4] == ".vol";
  }

  /** What `SegmentAt` reads is a well-formed repetition, spelled out in `s`. */
  lemma SegmentAtSound(s: string, i: nat)
    requires i <= |s| && SegmentAt(s, i).Some?
    ensures WellFormed(SegmentAt(s, i).value.0)
    ensures s[i..SegmentAt(s, i).value.1] == SegmentText(SegmentAt(s, i).value.0)
  {
    SegmentAtParts(s, i);
    var p := i + 4 + DigitRun(s, i + 4);
    DigitRunMaximal(s, i + 4);
    DigitRunMaximal(s, p + 1);
    SpelledSegment(s, i, p, p + 1 + DigitRun(s, p + 1));
  }

  lemma SpelledSegment(s: string, i: nat, p: nat, j: nat)
    requires i + 4 < p < p + 1 < j <= |s|
    requires s[i..i + 4] == ".vol" && s[p] == '+'
    requires AllDigits(s[i + 4..p]) && AllDigits(s[p + 1..j])
    ensures WellFormed(VolSegment(s[i + 4..p], s[p + 1..j]))
    ensures s[i..j] == SegmentText(VolSegment(s[i + 4..p], s[p + 1..j]))
  {
    assert s[p..j] == [s[p]] + s[p + 1..j];
    assert s[i + 4..j] == s[i + 4..p] + s[p..j];
    assert s[i..j] == s[i..i + 4] + s[i + 4..j];
  }

  /** A repetition written out at `i` and followed by a '.' is read back by `SegmentAt`. */
  lemma SegmentAtExact(s: string, i: nat, g: VolSegment)
    requires WellFormed(g)
    requires i + |SegmentText(g)| < |s|
    requires s[i..i + |SegmentText(g)|] == SegmentText(g)
    requires s[i + |SegmentText(g)|] == '.'
    ensures SegmentAt(s, i) == Some((g, i + |SegmentText(g)|))
  {
    var p := i + 4 + |g.start|;
    var j := p + 1 + |g.count|;
    SegmentSpelling(s, i, g);
    DigitRunExact(s, i + 4, |g.start|);
    DigitRunExact(s, p + 1, |g.count|);
  }

  lemma SliceOfSlice(s: string, i: nat, j: nat, a: nat, b: nat)
    requires i <= j <= |s| && a <= b <= j - i
    ensures s[i..j][a..b] == s[i + a..i + b]
  {
    assert forall k :: 0 <= k < b - a ==> s[i..j][a..b][k] == s[i + a + k];
  }

  /** The pieces of a repetition written out at `i`, position by position. */
  lemma SegmentSpelling(s: string, i: nat, g: VolSegment)
    requires i + |SegmentText(g)| <= |s|
    requires s[i..i + |SegmentText(g)|] == SegmentText(g)
    ensures var p := i + 4 + |g.start|; var j := p + 1 + |g.count|;
      && j == i + |SegmentText(g)|
      && s[i] == '.' && s[i + 1] == 'v' && s[i + 2] == 'o' && s[i + 3] == 'l'
      && s[i + 4..p] == g.start && s[p] == '+' && s[p + 1..j] == g.count
  {
    var a := |g.start|;
    var p := i + 4 + a;
    var j := p + 1 + |g.count|;
    var w := s[i..j];
    var u := ".vol" + g.start;
    assert w == u + "+" + g.count;
    assert w[..p - i] == u;
    assert u[0] == '.' && u[1] == 'v' && u[2] == 'o' && u[3] == 'l';
    assert u[4..] == g.start;
    assert w[4..p - i] == u[4..];
    SliceOfSlice(s, i, j, 4, p - i);
    assert s[p] == w[4 + a] == '+';
    assert w[5 + a..] == g.count;
    SliceOfSlice(s, i, j, 5 + a, j - i);
  }

  lemma RenderStartsWithDot(gs: seq<VolSegment>)
    requires |gs| > 0
    ensures |Render(gs)| > 0 && Render(gs)[0] == '.'
  {
    assert Render(gs) == SegmentText(gs[0]) + Render(gs[1..]);
  }

  lemma RenderCons(g: VolSegment, gs: seq<VolSegment>)
    ensures Render([g] + gs) == SegmentText(g) + Render(gs)
    ensures |SegmentText(g)| == 5 + |g.start| + |g.count|
  {
    assert ([g] + gs)[1..] == gs;
  }

  /** A repetition in front of a parse gives a parse. */
  lemma ParsesCons(s: string, i: nat, j: nat, g: VolSegment, gs: seq<VolSegment>)
    requires i < j <= |s| && WellFormed(g) && s[i..j] == SegmentText(g)
    requires Parses(s, j, gs)
    ensures Parses(s, i, [g] + gs)
  {
    RenderCons(g, gs);
    var n := |Render(gs)|;
    assert s[i..j + n] == s[i..j] + s[j..j + n];
  }

  /** Peeling the first repetition off a parse leaves a parse of the rest. */
  lemma ParsesUncons(s: string, i: nat, gs: seq<VolSegment>)
    requires |gs| > 0 && Parses(s, i, gs)
    ensures var j := i + |SegmentText(gs[0])|;
      && j < |s| && s[i..j] == SegmentText(gs[0]) && s[j] == '.'
      && Parses(s, j, gs[1..])
  {
    var g, rest := gs[0], gs[1..];
    RenderCons(g, rest);
    assert gs == [g] + rest;
    var n := |Render(gs)|;
    var j := i + |SegmentText(g)|;
    assert s[i..i + n] == SegmentText(g) + Render(rest);
    assert s[i..j] == s[i..i + n][..j - i];
    assert s[j..i + n] == s[i..i + n][j - i..];
    if |rest| > 0 {
      RenderStartsWithDot(rest);
      assert s[j] == s[j..i + n][0];
    }
  }

  /** `Tail` only succeeds on text that has the shape the pattern demands after group 1. */
  lemma {:induction false} TailSound(s: string, i: nat)
    requires i <= |s| && Tail(s, i).Some?
    ensures Parses(s, i, Tail(s, i).value)
    decreases |s| - i
  {
    match SegmentAt(s, i)
    case Some((g, j)) =>
      SegmentAtSound(s, i);
      TailSound(s, j);
      ParsesCons(s, i, j, g, Tail(s, j).value);
    case None =>
  }

  /** Both a repetition and the extension begin with a dot, so a tail can start only at one. */
  lemma TailNeedsDot(s: string, i: nat)
    requires i <= |s| && Tail(s, i).Some?
    ensures i < |s| && s[i] == '.'
  {
  }

  /** Where the extension starts no repetition can: the pattern matches zero repetitions there. */
  lemma TailAtExtension(s: string, i: nat)
    requires ExtensionAt(s, i)
    ensures Tail(s, i) == Some([])
  {
    assert SegmentAt(s, i).None?;
  }

  /**
   * Whatever repetitions-plus-extension shape `s[i..]` begins with, `Tail`
   * finds exactly that one: backtracking into `\d+` or giving up repetitions
   * could never have produced a different match.
   */
  lemma {:induction false} TailComplete(s: string, i: nat, gs: seq<VolSegment>)
    requires Parses(s, i, gs)
    ensures Tail(s, i) == Some(gs)
    decreases |gs|
  {
    if |gs| == 0 {
      TailAtExtension(s, i);
    } else {
      ParsesUncons(s, i, gs);
      var j := i + |SegmentText(gs[0])|;
      SegmentAtExact(s, i, gs[0]);
      TailComplete(s, j, gs[1..]);
      assert gs == [gs[0]] + gs[1..];
    }
  }

  /** `Tail` is the rest of the pattern exactly: it succeeds with `gs` if and only if `s[i..]` begins with `gs` and an extension. */
  lemma TailExact(s: string, i: nat, gs: seq<VolSegment>)
    requires i <= |s|
    ensures Tail(s, i) == Some(gs) <==> Parses(s, i, gs)
  {
    if Parses(s, i, gs) {
      TailComplete(s, i, gs);
    }
    if Tail(s, i) == Some(gs) {
      TailSound(s, i);
    }
  }

  /** The repetition-plus-extension shape right after group 1 is unique. */
  lemma ParsesUnique(s: string, i: nat, gs: seq<VolSegment>, hs: seq<VolSegment>)
    requires Parses(s, i, gs) && Parses(s, i, hs)
    ensures gs == hs
  {
    TailComplete(s, i, gs);
    TailComplete(s, i, hs);
  }

  // -------------------------------------------------- consequences

  lemma PrefixCandidate(s: string, q: nat)
    requires forall k :: 0 <= k < |s| ==> s[k] != '\n'
    requires 1 <= q <= |s|
    ensures Tail(s, q).Some? ==> MatchesAt(s, 0, q)
  {
  }

  /**
   * With no newline in the name, group 1 is the shortest non-empty prefix
   * after which the rest of the pattern matches, and there is no match
   * exactly when no such prefix exists.
   */
  lemma ShortestPrefix(s: string)
    requires forall k :: 0 <= k < |s| ==> s[k] != '\n'
    ensures Match(s).Matched? ==> Match(s).nameStart == 0 && 1 <= Match(s).nameEnd <= |s|
    ensures Match(s).Matched? ==> Tail(s, Match(s).nameEnd).Some?
    ensures Match(s).Matched? ==> forall q :: 1 <= q < Match(s).nameEnd ==> Tail(s, q).None?
    ensures Match(s).NoMatch? ==> forall q :: 1 <= q <= |s| ==> Tail(s, q).None?
  {
    var m := Match(s);
    if m.Matched? {
      PrefixCandidate(s, m.nameEnd);
      forall q | 1 <= q < m.nameEnd ensures Tail(s, q).None? {
        PrefixCandidate(s, q);
      }
    } else {
      forall q | 1 <= q <= |s| ensures Tail(s, q).None? {
        PrefixCandidate(s, q);
      }
    }
  }

  /**
   * When group 1 can be `s[..q]` and no shorter prefix can, the match is
   * `s[..q]` followed by the one repetition sequence that parses at `q`.
   */
  lemma MatchIsPrefix(s: string, q: nat, gs: seq<VolSegment>)
    requires MatchesAt(s, 0, q) && Parses(s, q, gs)
    requires forall q' :: 1 <= q' < q ==> Tail(s, q').None?
    ensures Match(s) == Matched(0, q, gs)
  {
    var m := Match(s);
    assert m.nameStart == 0 && m.nameEnd == q;
    ParsesUnique(s, q, m.segments, gs);
  }

  /** A match needs an extension at index 1 or later: the name before it is never empty. */
  lemma NoExtensionNoMatch(s: string)
    requires forall q :: 1 <= q ==> !ExtensionAt(s, q)
    ensures Match(s) == NoMatch
  {
    forall st: nat, q: nat | MatchesAt(s, st, q) ensures false {
      TailSound(s, q);
    }
  }
}
