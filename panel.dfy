/**
 * The popup panel (panel.js): parsing the project list typed by the user, the
 * texts written to and read back from the history and the page URL, the history
 * list itself, and the time shown next to each commit.
 */
module Panel {
  import opened Wrappers
  import opened Text

  /** One check target: a project path and a branch. */
  datatype Project = Project(path: string, branch: string)

  /** The branch used for a line that names no branch. */
  const DefaultBranch: string := "main"

  // ---------------------------------------------------------------------------
  // Parsing the project list

  /** A line splits on `/` into two or more pieces exactly when it holds a `/`. */
  lemma SlashPieces(line: string)
    ensures '/' in line <==> |Split(line, '/')| >= 2
  {
    if '/' in line {
      SplitWithSeparator(line, '/');
    } else {
      SplitWithoutSeparator(line, '/');
    }
  }

  /** The pieces before the last, re-joined with `/`, then `/` and the last piece, give the line back. */
  lemma LastPieceCut(line: string)
    requires |Split(line, '/')| >= 2
    ensures var parts := Split(line, '/');
      Join(parts[..|parts| - 1], "/") + "/" + parts[|parts| - 1] == line
  {
    var parts := Split(line, '/');
    JoinSplit(line, '/');
    assert parts == parts[..|parts| - 1] + [parts[|parts| - 1]];
    JoinSnoc(parts[..|parts| - 1], parts[|parts| - 1], "/");
  }

  /**
   * One line of input: split on `/`; with two or more pieces the last is the
   * branch and the others, re-joined with `/`, the path; otherwise the whole
   * line is the path and the branch is `main`.
   */
  function ParseLine(line: string): (p: Project)
    ensures '/' in line ==> p.path + "/" + p.branch == line && '/' !in p.branch
    ensures '/' !in line ==> p == Project(line, DefaultBranch)
  {
    SlashPieces(line);
    var parts := Split(line, '/');
    if |parts| >= 2 then
      LastPieceCut(line);
      Project(Join(parts[..|parts| - 1], "/"), parts[|parts| - 1])
    else
      Project(line, DefaultBranch)
  }

  /** In `a/b` with no `/` in `b`, the cut is the last `/`. */
  lemma SlashCut(a: string, b: string)
    requires '/' !in b
    ensures var s := a + "/" + b; s[|a|] == '/' && forall j :: |a| < j < |s| ==> s[j] != '/'
  {
    var s := a + "/" + b;
    forall j | |a| < j < |s| ensures s[j] != '/' {
      assert s[j] == b[j - |a| - 1];
    }
  }

  /** Of the ways to cut a string at a `/`, only one leaves no `/` after the cut. */
  lemma LastSlashUnique(a: string, b: string, c: string, d: string)
    requires a + "/" + b == c + "/" + d
    requires '/' !in b && '/' !in d
    ensures a == c && b == d
  {
    var s := a + "/" + b;
    SlashCut(a, b);
    SlashCut(c, d);
    assert |a| == |c|;
    assert b == s[|a| + 1..] == d;
    assert a == s[..|a|] == c;
  }

  /** The pieces of a split, trimmed, with the empty ones dropped, in order. */
  function NonEmptyTrimmed(pieces: seq<string>): (r: seq<string>)
    ensures |r| <= |pieces|
    ensures forall i :: 0 <= i < |r| ==> r[i] != "" && IsTrimmed(r[i])
  {
    if pieces == [] then []
    else
      var t := Trim(pieces[0]);
      (if t == "" then [] else [t]) + NonEmptyTrimmed(pieces[1..])
  }

  /** Pieces that are already trimmed and non-empty pass through unchanged. */
  lemma {:induction false} NonEmptyTrimmedOfClean(pieces: seq<string>)
    requires forall i :: 0 <= i < |pieces| ==> pieces[i] != "" && IsTrimmed(pieces[i])
    ensures NonEmptyTrimmed(pieces) == pieces
  {
    if pieces != [] {
      TrimOfTrimmed(pieces[0]);
      NonEmptyTrimmedOfClean(pieces[1..]);
      assert [pieces[0]] + pieces[1..] == pieces;
    }
  }

  /** Keeping the non-empty trimmed pieces distributes over concatenation. */
  lemma {:induction false} NonEmptyTrimmedAppend(a: seq<string>, b: seq<string>)
    ensures NonEmptyTrimmed(a + b) == NonEmptyTrimmed(a) + NonEmptyTrimmed(b)
  {
    if a == [] {
      assert a + b == b;
    } else {
      var t := Trim(a[0]);
      var kept := if t == "" then [] else [t];
      assert (a + b)[0] == a[0];
      assert (a + b)[1..] == a[1..] + b;
      assert NonEmptyTrimmed(a + b) == kept + NonEmptyTrimmed(a[1..] + b);
      NonEmptyTrimmedAppend(a[1..], b);
    }
  }

  /**
   * Each piece stays where it was: the kept pieces are those kept before
   * piece `i`, then `Trim(pieces[i])` unless it is empty, then those kept after.
   */
  lemma {:induction false} KeptInPlace(pieces: seq<string>, i: nat)
    requires i < |pieces|
    ensures NonEmptyTrimmed(pieces) ==
      NonEmptyTrimmed(pieces[..i])
      + (if Trim(pieces[i]) == "" then [] else [Trim(pieces[i])])
      + NonEmptyTrimmed(pieces[i + 1..])
  {
    var before, after := pieces[..i], pieces[i + 1..];
    assert pieces[i..] == [pieces[i]] + after;
    assert pieces == before + pieces[i..];
    KeptAround(pieces, before, pieces[i], after);
  }

  /** `KeptInPlace`, with the pieces around the one considered given apart. */
  lemma {:induction false} KeptAround(pieces: seq<string>, before: seq<string>, p: string, after: seq<string>)
    requires pieces == before + [p] + after
    ensures NonEmptyTrimmed(pieces) ==
      NonEmptyTrimmed(before) + (if Trim(p) == "" then [] else [Trim(p)]) + NonEmptyTrimmed(after)
  {
    NonEmptyTrimmedAppend(before + [p], after);
    NonEmptyTrimmedAppend(before, [p]);
    NonEmptyTrimmedOne(p);
  }

  /** A single piece is kept, trimmed, exactly when it is non-empty once trimmed. */
  lemma {:induction false} NonEmptyTrimmedOne(p: string)
    ensures NonEmptyTrimmed([p]) == if Trim(p) == "" then [] else [Trim(p)]
  {
    assert [p][1..] == [];
  }

  /** A character absent from every piece is absent from every kept piece. */
  lemma {:induction false} NonEmptyTrimmedKeepsAbsent(pieces: seq<string>, c: char)
    requires forall i :: 0 <= i < |pieces| ==> c !in pieces[i]
    ensures forall i :: 0 <= i < |NonEmptyTrimmed(pieces)| ==> c !in NonEmptyTrimmed(pieces)[i]
  {
    if pieces != [] {
      TrimKeepsAbsent(pieces[0], c);
      NonEmptyTrimmedKeepsAbsent(pieces[1..], c);
    }
  }

  /** The lines of the input that are non-empty once trimmed, trimmed, in input order. */
  function InputLines(input: string): seq<string> {
    NonEmptyTrimmed(Split(input, '\n'))
  }

  /** Each line parsed on its own, in order. */
  function ParseLines(lines: seq<string>): (ps: seq<Project>)
    ensures |ps| == |lines|
  {
    if lines == [] then [] else [ParseLine(lines[0])] + ParseLines(lines[1..])
  }

  /** The target list that the input text describes. */
  function ParsedProjects(input: string): seq<Project> {
    ParseLines(InputLines(input))
  }

  /**
   * parseProjects: one project per input line that is non-empty after
   * trimming, in input order, each cut at its last `/`.
   */
  method ParseProjects(input: string) returns (projects: seq<Project>)
    ensures projects == ParsedProjects(input)
    ensures |projects| == |InputLines(input)|
    ensures forall i :: 0 <= i < |projects| ==> projects[i] == ParseLine(InputLines(input)[i])
  {
    var lines := InputLines(input);
    projects := ParseEach(lines);
  }

  /** The loop of parseProjects: push the project of each line in turn. */
  method ParseEach(lines: seq<string>) returns (projects: seq<Project>)
    ensures projects == ParseLines(lines)
    ensures forall i :: 0 <= i < |lines| ==> projects[i] == ParseLine(lines[i])
  {
    projects := [];
    for k := 0 to |lines|
      invariant projects == ParseLines(lines[..k])
    {
      ParseLinesSnoc(lines[..k], lines[k]);
      assert lines[..k + 1] == lines[..k] + [lines[k]];
      projects := projects + [ParseLine(lines[k])];
    }
    assert lines[..|lines|] == lines;
    ParseLinesAt(lines);
  }

  /** `ParseLines` parses each line on its own. */
  lemma {:induction false} ParseLinesAt(lines: seq<string>)
    ensures forall i :: 0 <= i < |lines| ==> ParseLines(lines)[i] == ParseLine(lines[i])
  {
    if lines != [] {
      ParseLinesAt(lines[1..]);
      assert forall i :: 1 <= i < |lines| ==> ParseLines(lines)[i] == ParseLines(lines[1..])[i - 1];
    }
  }

  /** Parsing one more line appends its project. */
  lemma {:induction false} ParseLinesSnoc(lines: seq<string>, line: string)
    ensures ParseLines(lines + [line]) == ParseLines(lines) + [ParseLine(line)]
  {
    if lines == [] {
      assert lines + [line] == [line];
    } else {
      assert (lines + [line])[1..] == lines[1..] + [line];
      ParseLinesSnoc(lines[1..], line);
    }
  }

  // ---------------------------------------------------------------------------
  // The `path/branch` text of a project, and its round trip through parsing

  /** How the history stores a project: `path/branch`. */
  function FormatProject(p: Project): string {
    p.path + "/" + p.branch
  }

  function FormatProjects(ps: seq<Project>): (r: seq<string>)
    ensures |r| == |ps|
    ensures forall i :: 0 <= i < |ps| ==> r[i] == FormatProject(ps[i])
  {
    if ps == [] then [] else [FormatProject(ps[0])] + FormatProjects(ps[1..])
  }

  /** The text that filling the form from a history entry puts in the input box. */
  function ProjectsText(entries: seq<string>): string {
    Join(entries, "\n")
  }

  /** A project that survives being written as `path/branch` and parsed again. */
  predicate Reparsable(p: Project) {
    && '/' !in p.branch && '\n' !in p.branch && '\n' !in p.path
    && (p.path == [] || !IsSpace(p.path[0]))
    && (p.branch == [] || !IsSpace(p.branch[|p.branch| - 1]))
  }

  /** Parsing one formatted project gives it back. */
  lemma ParseFormatted(p: Project)
    requires Reparsable(p)
    ensures ParseLine(FormatProject(p)) == p
  {
    var line := FormatProject(p);
    assert line[|p.path|] == '/';
    var q := ParseLine(line);
    LastSlashUnique(q.path, q.branch, p.path, p.branch);
  }

  /** A formatted project is a line with no newline, nothing to trim, and at least one character. */
  lemma FormattedIsCleanLine(p: Project)
    requires Reparsable(p)
    ensures var line := FormatProject(p);
      line != "" && IsTrimmed(line) && '\n' !in line
  {
    var line := FormatProject(p);
    assert line[0] == if p.path == [] then '/' else p.path[0];
    assert line[|line| - 1] == if p.branch == [] then '/' else p.branch[|p.branch| - 1];
  }

  lemma {:induction false} ParseLinesFormatted(ps: seq<Project>)
    requires forall i :: 0 <= i < |ps| ==> Reparsable(ps[i])
    ensures ParseLines(FormatProjects(ps)) == ps
  {
    if ps != [] {
      ParseFormatted(ps[0]);
      ParseLinesFormatted(ps[1..]);
      assert FormatProjects(ps)[1..] == FormatProjects(ps[1..]);
      assert [ps[0]] + ps[1..] == ps;
    }
  }

  /**
   * Round trip: projects written as `path/branch` lines, joined with newlines
   * and parsed again give back the same list, provided no branch holds `/` or
   * a newline, no path a newline, no path starts and no branch ends with white space.
   */
  lemma ParseFormatRoundTrip(ps: seq<Project>)
    requires forall i :: 0 <= i < |ps| ==> Reparsable(ps[i])
    ensures ParsedProjects(ProjectsText(FormatProjects(ps))) == ps
  {
    FormattedLinesRead(FormatProjects(ps), ps);
    ParseLinesFormatted(ps);
  }

  /** Formatted projects are clean lines, and the text they make reads back as those lines. */
  lemma {:induction false} FormattedLinesRead(lines: seq<string>, ps: seq<Project>)
    requires lines == FormatProjects(ps)
    requires forall i :: 0 <= i < |ps| ==> Reparsable(ps[i])
    ensures InputLines(ProjectsText(lines)) == lines
  {
    forall i | 0 <= i < |lines|
      ensures lines[i] != "" && IsTrimmed(lines[i]) && '\n' !in lines[i]
    {
      FormattedIsCleanLine(ps[i]);
    }
    CleanLinesRead(lines);
  }

  /** Clean lines joined by newlines are split and filtered back into themselves. */
  lemma {:induction false} CleanLinesRead(lines: seq<string>)
    requires forall i :: 0 <= i < |lines| ==> lines[i] != "" && IsTrimmed(lines[i]) && '\n' !in lines[i]
    ensures InputLines(ProjectsText(lines)) == lines
  {
    if lines == [] {
      EmptyTextNoLines(ProjectsText(lines));
    } else {
      CleanTextSplits(lines, ProjectsText(lines));
      NonEmptyTrimmedOfClean(lines);
    }
  }

  /** The empty text has no lines. */
  lemma EmptyTextNoLines(text: string)
    requires text == ""
    ensures InputLines(text) == []
  {
    SplitWithoutSeparator(text, '\n');
    NonEmptyTrimmedOne(text);
  }

  /** A text of clean lines splits back into them. */
  lemma {:induction false} CleanTextSplits(lines: seq<string>, text: string)
    requires |lines| >= 1 && text == ProjectsText(lines)
    requires forall i :: 0 <= i < |lines| ==> '\n' !in lines[i]
    ensures InputLines(text) == NonEmptyTrimmed(lines)
  {
    SplitJoin(lines, '\n');
  }

  // ---------------------------------------------------------------------------
  // Local date and time

  /**
   * An instant: its milliseconds since the epoch and the local calendar fields
   * `Date`'s getters report for it (month counts from 0, as `getMonth` does).
   */
  datatype DateTime = DateTime(epochMs: int, year: int, month: int, day: int,
                               hour: int, minute: int, second: int)

  /** The fields of a well-formed local date and time. */
  predicate ValidFields(t: DateTime) {
    0 <= t.month < 12 && 1 <= t.day <= 31
    && 0 <= t.hour < 24 && 0 <= t.minute < 60 && 0 <= t.second < 60
  }

  /** `String(n).padStart(2, '0')`. */
  function TwoDigits(n: int): string {
    PadStart(IntToString(n), 2, '0')
  }

  /** A number below 100 is written with exactly two digits that read back as the number. */
  lemma TwoDigitsValue(n: int)
    requires 0 <= n < 100
    ensures |TwoDigits(n)| == 2
    ensures IsDigit(TwoDigits(n)[0]) && IsDigit(TwoDigits(n)[1])
    ensures DigitsValue(TwoDigits(n)) == n
  {
    if n < 10 {
      OneDigitPadded(n);
      var t := TwoDigits(n);
      assert t[..1] == ['0'] && t[..0] == [];
      assert DigitsValue(t[..1]) == 0;
      assert DigitValue(t[1]) == n;
    } else {
      TwoDigitNumeral(n);
      NatToStringValue(n);
    }
  }

  /** A single digit gets one `0` in front. */
  lemma OneDigitPadded(n: int)
    requires 0 <= n < 10
    ensures TwoDigits(n) == ['0', DigitChar(n)]
  {
    var s := IntToString(n);
    assert s == [DigitChar(n)];
    assert PadStart(s, 2, '0') == PadStart(['0'] + s, 2, '0');
    assert ['0'] + s == ['0', DigitChar(n)];
  }

  /** Two digits are left as they are. */
  lemma TwoDigitNumeral(n: int)
    requires 10 <= n < 100
    ensures TwoDigits(n) == NatToString(n) && |NatToString(n)| == 2
  {
    assert NatToString(n) == NatToString(n / 10) + [DigitChar(n % 10)];
    assert |NatToString(n / 10)| == 1;
  }

  /** `YYYY-MM-DD hh:mm:ss`, the layout of the history time and of a commit's exact time. */
  function Timestamp(t: DateTime): string {
    Layout(IntToString(t.year), TwoDigits(t.month + 1), TwoDigits(t.day),
           TwoDigits(t.hour), TwoDigits(t.minute), TwoDigits(t.second))
  }

  function Layout(year: string, month: string, day: string, hour: string, minute: string, second: string): string {
    year + "-" + month + "-" + day + " " + hour + ":" + minute + ":" + second
  }

  /** Where each piece of the layout sits when every piece after the year has two characters. */
  lemma LayoutOffsets(year: string, month: string, day: string, hour: string, minute: string, second: string)
    requires |month| == 2 && |day| == 2 && |hour| == 2 && |minute| == 2 && |second| == 2
    ensures var s := Layout(year, month, day, hour, minute, second); var y := |year|;
      && |s| == y + 15 && s[..y] == year
      && s[y] == '-' && s[y + 3] == '-' && s[y + 6] == ' ' && s[y + 9] == ':' && s[y + 12] == ':'
      && s[y + 1..y + 3] == month && s[y + 4..y + 6] == day && s[y + 7..y + 9] == hour
      && s[y + 10..y + 12] == minute && s[y + 13..y + 15] == second
  {
  }

  /**
   * Every field after the year sits at a fixed offset and is the two-digit
   * form of its value (the month counted from 1), which `TwoDigitsValue` reads back.
   */
  lemma TimestampLayout(t: DateTime)
    requires ValidFields(t)
    ensures var s := Timestamp(t); var y := |IntToString(t.year)|;
      && |s| == y + 15
      && s[..y] == IntToString(t.year)
      && s[y] == '-' && s[y + 3] == '-' && s[y + 6] == ' ' && s[y + 9] == ':' && s[y + 12] == ':'
      && s[y + 1..y + 3] == TwoDigits(t.month + 1)
      && s[y + 4..y + 6] == TwoDigits(t.day)
      && s[y + 7..y + 9] == TwoDigits(t.hour)
      && s[y + 10..y + 12] == TwoDigits(t.minute)
      && s[y + 13..y + 15] == TwoDigits(t.second)
  {
    var year, month, day := IntToString(t.year), TwoDigits(t.month + 1), TwoDigits(t.day);
    var hour, minute, second := TwoDigits(t.hour), TwoDigits(t.minute), TwoDigits(t.second);
    TwoDigitsValue(t.month + 1);
    TwoDigitsValue(t.day);
    TwoDigitsValue(t.hour);
    TwoDigitsValue(t.minute);
    TwoDigitsValue(t.second);
    TimestampIsLayout(t, year, month, day, hour, minute, second);
    LayoutOffsets(year, month, day, hour, minute, second);
  }

  lemma TimestampIsLayout(t: DateTime, year: string, month: string, day: string, hour: string, minute: string, second: string)
    requires year == IntToString(t.year) && month == TwoDigits(t.month + 1) && day == TwoDigits(t.day)
    requires hour == TwoDigits(t.hour) && minute == TwoDigits(t.minute) && second == TwoDigits(t.second)
    ensures Timestamp(t) == Layout(year, month, day, hour, minute, second)
  {
  }

  // ---------------------------------------------------------------------------
  // The time shown for a commit

  const MsPerMinute: int := 60000
  const MsPerHour: int := 3600000
  const MsPerDay: int := 86400000

  const JustNow: string := "刚刚"
  const MinutesAgo: string := "分钟前"
  const HoursAgo: string := "小时前"
  const DaysAgo: string := "天前"
  const UnknownTime: string := "未知"

  /**
   * The relative time for a commit `diff` milliseconds old. Division by a
   * positive constant rounds down here as `Math.floor` does.
   */
  function RelativeTime(diff: int): string {
    var minutes := diff / MsPerMinute;
    var hours := diff / MsPerHour;
    var days := diff / MsPerDay;
    if minutes < 1 then JustNow
    else if minutes < 60 then IntToString(minutes) + MinutesAgo
    else if hours < 24 then IntToString(hours) + HoursAgo
    else if days < 7 then IntToString(days) + DaysAgo
    else IntToString(days) + DaysAgo
  }

  /**
   * The buckets: under a minute (a commit in the future included) is "just
   * now"; then whole minutes 1..59, whole hours 1..23, and whole days from 1 up,
   * a week or more looking just like fewer days.
   */
  lemma RelativeTimeBuckets(diff: int)
    ensures diff < MsPerMinute ==> RelativeTime(diff) == JustNow
    ensures MsPerMinute <= diff < MsPerHour ==>
      1 <= diff / MsPerMinute < 60 && RelativeTime(diff) == IntToString(diff / MsPerMinute) + MinutesAgo
    ensures MsPerHour <= diff < MsPerDay ==>
      1 <= diff / MsPerHour < 24 && RelativeTime(diff) == IntToString(diff / MsPerHour) + HoursAgo
    ensures MsPerDay <= diff ==>
      1 <= diff / MsPerDay && RelativeTime(diff) == IntToString(diff / MsPerDay) + DaysAgo
  {
    if diff < MsPerMinute {
      assert diff / MsPerMinute < 1;
    } else if diff < MsPerHour {
      assert 1 <= diff / MsPerMinute < 60;
    } else if diff < MsPerDay {
      assert diff / MsPerMinute >= 60;
      assert 1 <= diff / MsPerHour < 24;
    } else {
      assert diff / MsPerMinute >= 60;
      assert diff / MsPerHour >= 24;
    }
  }

  /** What the panel shows for a commit time, and whether it was today. */
  datatype TimeInfo = TimeInfo(html: string, isToday: bool)

  /** Both instants fall on the same local calendar day. */
  predicate SameDay(a: DateTime, b: DateTime) {
    a.year == b.year && a.month == b.month && a.day == b.day
  }

  /**
   * formatTime. `timeString` is the commit's time field (absent when the
   * commit has none), `date` what `new Date` made of it (absent for an invalid
   * date), `now` the current instant.
   */
  function FormatTime(timeString: Option<string>, date: Option<DateTime>, now: DateTime): (r: TimeInfo)
    ensures r.html == UnknownTime <==> timeString in {None, Some("")} || date.None?
    ensures r.html == UnknownTime ==> !r.isToday
    ensures r.isToday <==> r.html != UnknownTime && SameDay(date.value, now)
    ensures timeString.Some? && timeString.value != "" && date.Some? ==>
              r.html == RelativeTime(now.epochMs - date.value.epochMs) + "（" + Timestamp(date.value) + "）"
  {
    if timeString.None? || timeString.value == "" then TimeInfo(UnknownTime, false)
    else match date
      case None => TimeInfo(UnknownTime, false)
      case Some(d) =>
        var html := RelativeTime(now.epochMs - d.epochMs) + "（" + Timestamp(d) + "）";
        assert |html| > |UnknownTime|;
        TimeInfo(html, SameDay(d, now))
  }

  // ---------------------------------------------------------------------------
  // The history of checks

  /** One saved check: when, against which GitLab, and the projects as `path/branch`. */
  datatype HistoryItem = HistoryItem(time: string, gitlabUrl: string, projects: seq<string>)

  /** The most entries the history keeps. */
  const MaxHistory: nat := 50

  /** The entry saved for a successful check at `now`. */
  function NewHistoryItem(now: DateTime, gitlabUrl: string, projects: seq<Project>): HistoryItem {
    HistoryItem(Timestamp(now), gitlabUrl, FormatProjects(projects))
  }

  /** The history after saving `item`: the item in front, the last entry dropped once over the cap. */
  function Saved(history: seq<HistoryItem>, item: HistoryItem): seq<HistoryItem> {
    if |history| + 1 > MaxHistory then [item] + history[..|history| - 1] else [item] + history
  }

  /**
   * From a history within the cap: the new entry comes first, the older ones
   * follow in their order, the length is `min(old + 1, 50)`, and only the
   * oldest entry can be lost.
   */
  lemma SavedBounded(history: seq<HistoryItem>, item: HistoryItem)
    requires |history| <= MaxHistory
    ensures var h := Saved(history, item);
      && h[0] == item
      && h[1..] <= history
      && |h| == (if |history| < MaxHistory then |history| + 1 else MaxHistory)
      && (|history| < MaxHistory ==> h[1..] == history)
      && (forall k :: 0 <= k < |history| - 1 ==> h[k + 1] == history[k])
  {
  }

  /** An entry of the history can be read back into the very project list it was saved from. */
  lemma HistoryEntryRoundTrip(now: DateTime, gitlabUrl: string, projects: seq<Project>)
    requires forall i :: 0 <= i < |projects| ==> Reparsable(projects[i])
    ensures ParsedProjects(ProjectsText(NewHistoryItem(now, gitlabUrl, projects).projects)) == projects
  {
    ParseFormatRoundTrip(projects);
  }

  /** The history list kept in extension storage. */
  class HistoryStore {
    var entries: seq<HistoryItem>

    /** Loading the stored list: a missing list reads as empty. */
    constructor (stored: Option<seq<HistoryItem>>)
      ensures entries == stored.GetOr([])
    {
      entries := stored.GetOr([]);
    }

    /** The list update of saveHistory: the new entry goes in front, then the list is cut back to the cap. */
    method Save(item: HistoryItem)
      modifies this
      ensures entries == Saved(old(entries), item)
      ensures entries[0] == item
      ensures |old(entries)| <= MaxHistory ==> |entries| <= MaxHistory
    {
      entries := [item] + entries;
      if |entries| > MaxHistory {
        entries := entries[..|entries| - 1];
      }
    }
  }

  // ---------------------------------------------------------------------------
  // Loading projects from the page URL

  /**
   * loadProjectsFromUrl: the `projectPath` parameter (absent when the URL has
   * none) split on `|`, trimmed, empty pieces dropped, joined with newlines;
   * absent when nothing is left, and then the input box is left alone.
   */
  function UrlProjectsText(projectPath: Option<string>): Option<string> {
    if projectPath.None? || projectPath.value == "" then None
    else
      var pieces := NonEmptyTrimmed(Split(projectPath.value, '|'));
      if |pieces| > 0 then Some(Join(pieces, "\n")) else None
  }

  /** A character absent from a string is absent from each of its pieces. */
  lemma {:induction false} SplitKeepsAbsent(s: string, sep: char, c: char)
    requires c !in s
    ensures forall i :: 0 <= i < |Split(s, sep)| ==> c !in Split(s, sep)[i]
  {
    if s != [] {
      assert s == [s[0]] + s[1..];
      SplitKeepsAbsent(s[1..], sep, c);
    }
  }

  /** The input box is filled exactly when some piece is non-empty once trimmed. */
  lemma UrlProjectsFilled(projectPath: Option<string>)
    ensures UrlProjectsText(projectPath).Some? <==>
      projectPath.Some? && |NonEmptyTrimmed(Split(projectPath.value, '|'))| > 0
  {
    if projectPath == Some("") {
      assert Split("", '|') == [""];
    }
  }

  /**
   * The loaded text has one line per `|`-separated piece that is non-empty
   * once trimmed, in order, and no empty line; parsing it gives one project
   * per such piece. A newline inside the parameter would make more lines, so
   * the parameter is taken to have none.
   */
  lemma UrlProjectsLines(projectPath: string)
    requires '\n' !in projectPath
    requires |NonEmptyTrimmed(Split(projectPath, '|'))| > 0
    ensures var pieces := NonEmptyTrimmed(Split(projectPath, '|'));
      && UrlProjectsText(Some(projectPath)) == Some(ProjectsText(pieces))
      && Split(ProjectsText(pieces), '\n') == pieces
      && (forall i :: 0 <= i < |pieces| ==> pieces[i] != "")
      && ParsedProjects(ProjectsText(pieces)) == ParseLines(pieces)
  {
    var parts := Split(projectPath, '|');
    var pieces := NonEmptyTrimmed(parts);
    SplitKeepsAbsent(projectPath, '|', '\n');
    NonEmptyTrimmedKeepsAbsent(parts, '\n');
    SplitJoin(pieces, '\n');
    NonEmptyTrimmedOfClean(pieces);
  }
}
