/**
  The lunch log parser (`LocationData.parse_lunch_log_md`).

  Every match of the heading pattern `### (\d{4}-\d{2}-\d{2}) — (.+)` gives one visit
  entry.  The location description of an entry is then searched for, once per
  entry, after the first occurrence of that entry's heading text.
 */
module LunchLog {
  import opened Options
  import opened Strings

  /** One visit dictionary: `date`, `name`, `visited` and, when found, `location_description`. */
  datatype VisitEntry = VisitEntry(date: string, name: string, visited: bool,
                                   locationDescription: Option<string>)

  /** The two groups of one heading match: the date and the place name as matched. */
  datatype Heading = Heading(date: string, rawName: string)

  /** `\d`, on ASCII digits. */
  predicate IsDigit(c: char)
  {
    '0' <= c <= '9'
  }

  /** The separator between date and name: a space, an em dash, a space. */
  const Dash: string := " \U{2014} "

  /** `\d{4}-\d{2}-\d{2}`. */
  predicate IsDateShaped(d: string)
  {
    |d| == 10 && IsDigit(d[0]) && IsDigit(d[1]) && IsDigit(d[2]) && IsDigit(d[3]) && d[4] == '-'
    && IsDigit(d[5]) && IsDigit(d[6]) && d[7] == '-' && IsDigit(d[8]) && IsDigit(d[9])
  }

  /**
    The heading pattern matches the line from position `p`: `### `, a date, the
    separator, and at least one more character (the line holds no line feed, so `.+`
    takes the rest of the line).
   */
  predicate HeadingAt(line: string, p: int)
  {
    0 <= p && p + 18 <= |line| && line[p..p + 4] == "### " && IsDateShaped(line[p + 4..p + 14])
    && line[p + 14..p + 17] == Dash
  }

  /** The leftmost position at or after `p` where the heading pattern matches, or -1. */
  function FirstHeadingFrom(line: string, p: nat): (r: int)
    ensures r == -1 || (p <= r && HeadingAt(line, r))
    ensures r == -1 ==> forall q :: p <= q ==> !HeadingAt(line, q)
    ensures r != -1 ==> forall q :: p <= q < r ==> !HeadingAt(line, q)
    decreases |line| - p
  {
    if p + 18 > |line| then -1
    else if HeadingAt(line, p) then p
    else FirstHeadingFrom(line, p + 1)
  }

  /**
    The match `re.findall` finds in one line: the leftmost place where the pattern
    matches, its date group, and the rest of the line as its name group.
   */
  function HeadingOf(line: string): Option<Heading>
  {
    var p := FirstHeadingFrom(line, 0);
    if p < 0 then None else Some(Heading(line[p + 4..p + 14], line[p + 17..]))
  }

  /**
    A line gives a match exactly when the pattern matches somewhere in it; the match is
    the leftmost one, its date has the date shape and its name is not empty.
   */
  lemma HeadingOfSpec(line: string)
    ensures HeadingOf(line).None? <==> forall q :: 0 <= q ==> !HeadingAt(line, q)
    ensures HeadingOf(line).Some? ==>
              exists p :: HeadingAt(line, p) && (forall q :: 0 <= q < p ==> !HeadingAt(line, q))
                          && HeadingOf(line).value == Heading(line[p + 4..p + 14], line[p + 17..])
    ensures HeadingOf(line).Some? ==> IsDateShaped(HeadingOf(line).value.date)
                                      && |HeadingOf(line).value.rawName| > 0
  {
  }

  /**
    `re.findall(date_pattern, content)` over the lines of the document.  The pattern
    cannot match across a line feed and its name group runs to the end of the line,
    so each line holds at most one match.
   */
  function Headings(lines: seq<string>): seq<Heading>
  {
    if lines == [] then []
    else (match HeadingOf(lines[0]) case None => [] case Some(h) => [h]) + Headings(lines[1..])
  }

  /** Matches are reported in document order: the headings of a concatenation concatenate. */
  lemma {:induction false} HeadingsAppend(a: seq<string>, b: seq<string>)
    ensures Headings(a + b) == Headings(a) + Headings(b)
  {
    if a != [] {
      assert (a + b)[1..] == a[1..] + b;
      assert (a + b)[0] == a[0];
      HeadingsAppend(a[1..], b);
    } else {
      assert a + b == b;
    }
  }

  /**
    A line gives at most one match, and one exactly when the pattern matches somewhere
    in it; that match is the leftmost one.
   */
  lemma HeadingsOfLine(line: string)
    ensures |Headings([line])| <= 1
    ensures |Headings([line])| == 1 <==> exists q :: 0 <= q && HeadingAt(line, q)
    ensures |Headings([line])| == 1 ==>
              exists p :: HeadingAt(line, p) && (forall q :: 0 <= q < p ==> !HeadingAt(line, q))
                          && Headings([line])[0] == Heading(line[p + 4..p + 14], line[p + 17..])
  {
    assert [line][1..] == [];
    HeadingOfSpec(line);
  }

  // ---------------------------------------------------------------------------
  // The location description search
  // ---------------------------------------------------------------------------

  /** A line feed followed by the `- **Location:** ` bullet. */
  const LocationMarker: string := "\n- **Location:** "

  /** The literal text the description search starts from: the heading as matched. */
  function HeadingText(h: Heading): string
  {
    "### " + h.date + Dash + h.rawName
  }

  /**
    The first position `m` at or after `i` where the location marker occurs and is
    followed by one more character; when `dotAll` is false, that character must not
    be a line feed.  This is where the capture group of the description search starts.
   */
  function MarkerFrom(content: string, i: nat, dotAll: bool): (m: int)
    ensures m == -1 || (i <= m && CaptureAt(content, m, dotAll))
    ensures m == -1 ==> forall k :: i <= k ==> !CaptureAt(content, k, dotAll)
    ensures m != -1 ==> forall k :: i <= k < m ==> !CaptureAt(content, k, dotAll)
    decreases |content| - i
  {
    if i + |LocationMarker| >= |content| then -1
    else if CaptureAt(content, i, dotAll) then i
    else MarkerFrom(content, i + 1, dotAll)
  }

  /** The marker occurs at `m` and the capture `(.+)` can take at least one character after it. */
  predicate CaptureAt(content: string, m: int, dotAll: bool)
  {
    OccursAt(content, LocationMarker, m) && m + |LocationMarker| < |content|
    && (dotAll || content[m + |LocationMarker|] != '\n')
  }

  /** The end of the line that position `i` is on. */
  function LineEnd(content: string, i: nat): (e: nat)
    requires i <= |content|
    ensures i <= e <= |content|
    ensures '\n' !in content[i..e]
    ensures e < |content| ==> content[e] == '\n'
  {
    var f := FindFrom(content, "\n", i);
    if f < 0 then
      assert forall k :: i <= k < |content| ==> content[k] != '\n' by {
        forall k | i <= k < |content| ensures content[k] != '\n' {
          assert !OccursAt(content, "\n", k);
          assert content[k..k + 1] == [content[k]];
        }
      }
      |content|
    else
      assert forall k :: i <= k < f ==> content[k] != '\n' by {
        forall k | i <= k < f ensures content[k] != '\n' {
          assert !OccursAt(content, "\n", k);
          assert content[k..k + 1] == [content[k]];
        }
      }
      assert content[f..f + 1] == "\n";
      f
  }

  /**
    `re.search('### ' + date + ' — ' + name + r'.*?\n- \*\*Location:\*\* (.+)', content, flags)`
    with group 1 stripped.  The search starts from the first occurrence of the heading
    text; the lazy `.*?` runs to the first location marker after it, crossing any later
    heading.  With `dotAll` the group `(.+)` runs to the end of the document; without
    it, to the end of the marker's line.
   */
  function Description(content: string, h: Heading, dotAll: bool): Option<string>
  {
    var s := FindFrom(content, HeadingText(h), 0);
    if s < 0 then None
    else
      var m := MarkerFrom(content, s + |HeadingText(h)|, dotAll);
      if m < 0 then None
      else
        var start := m + |LocationMarker|;
        Some(Strip(if dotAll then content[start..] else content[start..LineEnd(content, start)]))
  }

  /** The description as lunch_map.py:61 computes it, with `re.DOTALL`. */
  function DescriptionAsWritten(content: string, h: Heading): Option<string>
  {
    Description(content, h, true)
  }

  /** The description the search evidently intends: the rest of the location bullet's line. */
  function LocationDescription(content: string, h: Heading): Option<string>
  {
    Description(content, h, false)
  }

  /** Without `re.DOTALL` in the capture, the description never runs past its line. */
  lemma LocationDescriptionSingleLine(content: string, h: Heading)
    requires LocationDescription(content, h).Some?
    ensures '\n' !in LocationDescription(content, h).value
  {
    var s := FindFrom(content, HeadingText(h), 0);
    var m := MarkerFrom(content, s + |HeadingText(h)|, false);
    var start := m + |LocationMarker|;
    var line := content[start..LineEnd(content, start)];
    assert LocationDescription(content, h) == Some(Strip(line));
    StripAbsent(line, '\n');
  }

  /**
    A document that begins with a heading, then the location bullet with value `v` and
    then anything from a line feed on.  The intended description is `v` stripped; the
    as-written one is everything after the bullet's marker, to the end of the document,
    stripped.  Whatever `tail` holds, a repetition of the same heading included, does not
    change the description found for this heading.
   */
  lemma BulletDescription(h: Heading, v: string, tail: string)
    requires |v| > 0 && '\n' !in v && (tail == [] || tail[0] == '\n')
    ensures var content := HeadingText(h) + LocationMarker + v + tail;
            LocationDescription(content, h) == Some(Strip(v))
            && DescriptionAsWritten(content, h) == Some(Strip(v + tail))
  {
    var ht := HeadingText(h);
    var content := ht + LocationMarker + v + tail;
    var n := |ht|;
    var start := n + |LocationMarker|;
    assert content[0..n] == ht;
    FindFromWitness(content, ht, 0, 0);
    assert content[n..start] == LocationMarker;
    assert content[start] == v[0];
    assert CaptureAt(content, n, true) && CaptureAt(content, n, false);
    assert content[start..] == v + tail;
    LineEndAfter(content, start, v);
    var e := LineEnd(content, start);
    assert content[start..e] == v;
  }

  /** A line that holds `v` from `start` on and ends right after it ends there. */
  lemma LineEndAfter(content: string, start: nat, v: string)
    requires start + |v| <= |content| && content[start..start + |v|] == v && '\n' !in v
    requires start + |v| == |content| || content[start + |v|] == '\n'
    ensures LineEnd(content, start) == start + |v|
  {
    assert forall k :: start <= k < start + |v| ==> !OccursAt(content, "\n", k) by {
      forall k | start <= k < start + |v| ensures !OccursAt(content, "\n", k) {
        assert content[k] == v[k - start];
        assert content[k..k + 1] == [content[k]];
      }
    }
    if start + |v| < |content| {
      assert content[start + |v|..start + |v| + 1] == "\n";
      FindFromWitness(content, "\n", start, start + |v|);
    }
  }

  /** Stripping keeps a line feed that has text on both sides of it. */
  lemma StripKeepsInnerLineFeed(t: string, a: nat, q: nat, b: nat)
    requires a < q < b < |t|
    requires !IsSpace(t[a]) && t[q] == '\n' && !IsSpace(t[b])
    ensures '\n' in Strip(t)
  {
    StripKeeps(t, a, b);
    var i, j :| 0 <= i <= a && b < j <= |t| && Strip(t) == t[i..j];
    assert t[i..j][q - i] == t[q];
  }

  /**
    With `re.DOTALL`, the description goes on past its own line: after a bullet with
    some text, any text on a later line ends up in the as-written description, which
    then holds a line feed, while the intended one never does.
   */
  lemma AsWrittenCrossesLines(h: Heading, v: string, tail: string, a: nat, b: nat)
    requires |v| > 0 && '\n' !in v && |tail| > 0 && tail[0] == '\n'
    requires a < |v| && !IsSpace(v[a]) && b < |tail| && !IsSpace(tail[b])
    ensures var content := HeadingText(h) + LocationMarker + v + tail;
            '\n' in DescriptionAsWritten(content, h).value
            && '\n' !in LocationDescription(content, h).value
  {
    BulletDescription(h, v, tail);
    var t := v + tail;
    assert t[a] == v[a] && t[|v|] == '\n' && t[|v| + b] == tail[b];
    StripKeepsInnerLineFeed(t, a, |v|, |v| + b);
    StripAbsent(v, '\n');
  }

  /**
    A document where the as-written description swallows the next heading, and the
    intended one stops at the end of the bullet's line.
   */
  lemma DescriptionFinding()
    ensures var h := Heading("2024-01-01", "A");
            var tail := "\n### 2024-01-02 \U{2014} B";
            var content := HeadingText(h) + LocationMarker + "X" + tail;
            DescriptionAsWritten(content, h) == Some("X" + tail)
            && LocationDescription(content, h) == Some("X")
  {
    var h := Heading("2024-01-01", "A");
    var tail := "\n### 2024-01-02 \U{2014} B";
    BulletDescription(h, "X", tail);
    StripUnchanged("X");
    StripUnchanged("X" + tail);
  }

  // ---------------------------------------------------------------------------
  // The parser
  // ---------------------------------------------------------------------------

  /** The entry lunch_map.py:54-65 builds for one heading match, with the `re.DOTALL` description. */
  function EntryOf(content: string, h: Heading): VisitEntry
  {
    VisitEntry(h.date, Strip(h.rawName), true, DescriptionAsWritten(content, h))
  }

  /** The entries of a log: one per heading match, in document order. */
  function LogEntries(content: string): seq<VisitEntry>
  {
    var hs := Headings(SplitLines(content));
    seq(|hs|, k requires 0 <= k < |hs| => EntryOf(content, hs[k]))
  }

  /** `parse_lunch_log_md(content)`. */
  method ParseLunchLog(content: string) returns (entries: seq<VisitEntry>)
    ensures entries == LogEntries(content)
  {
    var dates := Headings(SplitLines(content));
    entries := [];
    for i := 0 to |dates|
      invariant |entries| == i
      invariant forall k :: 0 <= k < i ==> entries[k] == EntryOf(content, dates[k])
    {
      var h := dates[i];
      var entry := VisitEntry(h.date, Strip(h.rawName), true, None);
      var locationMatch := DescriptionAsWritten(content, h);
      if locationMatch.Some? {
        entry := entry.(locationDescription := locationMatch);
      }
      entries := entries + [entry];
    }
  }

  /**
    Each entry carries its heading's date, which has the date shape, its heading's name
    without surrounding white space, and `visited` set.  It has a description exactly
    when the heading text occurs and a location marker with at least one character after
    it follows that first occurrence; the description is then everything after the first
    such marker, to the end of the document, stripped.
   */
  lemma LogEntriesSpec(content: string)
    ensures var hs := Headings(SplitLines(content));
            var es := LogEntries(content);
            |es| == |hs|
            && forall k :: 0 <= k < |hs| ==>
                 es[k].date == hs[k].date && IsDateShaped(es[k].date)
                 && es[k].name == Strip(hs[k].rawName) && es[k].visited
                 && AsWrittenSearch(content, hs[k], es[k].locationDescription)
  {
    var hs := Headings(SplitLines(content));
    forall k | 0 <= k < |hs| ensures IsDateShaped(hs[k].date) && AsWrittenSearch(content, hs[k], LogEntries(content)[k].locationDescription) {
      HeadingsDated(SplitLines(content), k);
      DescriptionAsWrittenSpec(content, hs[k]);
    }
  }

  /**
    What the `re.DOTALL` search of lunch_map.py:61 finds for heading `h`, stated
    without `MarkerFrom`: `d` is the stripped rest of the document after the leftmost
    marker that follows the heading text's first occurrence and has a character after
    it, and `None` when there is no such marker or the heading text does not occur.
   */
  ghost predicate AsWrittenSearch(content: string, h: Heading, d: Option<string>)
  {
    var s := FindFrom(content, HeadingText(h), 0);
    (d.Some? <==> s >= 0 && exists m :: s + |HeadingText(h)| <= m && CaptureAt(content, m, true))
    && (d.Some? ==> exists m :: s + |HeadingText(h)| <= m && CaptureAt(content, m, true)
                               && (forall q :: s + |HeadingText(h)| <= q < m ==> !CaptureAt(content, q, true))
                               && d.value == Strip(content[m + |LocationMarker|..]))
  }

  lemma DescriptionAsWrittenSpec(content: string, h: Heading)
    ensures AsWrittenSearch(content, h, DescriptionAsWritten(content, h))
  {
    var s := FindFrom(content, HeadingText(h), 0);
    var d := DescriptionAsWritten(content, h);
    if s >= 0 {
      var i := s + |HeadingText(h)|;
      var m := MarkerFrom(content, i, true);
      if m >= 0 {
        assert d == Some(Strip(content[m + |LocationMarker|..]));
        assert i <= m && CaptureAt(content, m, true);
        assert forall q :: i <= q < m ==> !CaptureAt(content, q, true);
      } else {
        assert d.None?;
        assert forall q :: i <= q ==> !CaptureAt(content, q, true);
      }
    } else {
      assert d.None?;
    }
  }

  /** The entries the parser evidently intends: the description is the rest of the bullet's line. */
  function IntendedEntries(content: string): seq<VisitEntry>
  {
    var hs := Headings(SplitLines(content));
    seq(|hs|, k requires 0 <= k < |hs| =>
      VisitEntry(hs[k].date, Strip(hs[k].rawName), true, LocationDescription(content, hs[k])))
  }

  /**
    The intended entries differ from the parsed ones only in their descriptions, which
    never hold a line feed, and an entry with an intended description also has one as
    written.
   */
  lemma IntendedEntriesSpec(content: string)
    ensures var es := LogEntries(content);
            var ie := IntendedEntries(content);
            |ie| == |es|
            && forall k :: 0 <= k < |es| ==>
                 ie[k] == es[k].(locationDescription := ie[k].locationDescription)
                 && (ie[k].locationDescription.Some? ==>
                       es[k].locationDescription.Some? && '\n' !in ie[k].locationDescription.value)
  {
    var hs := Headings(SplitLines(content));
    forall k | 0 <= k < |hs|
      ensures LocationDescription(content, hs[k]).Some? ==>
                DescriptionAsWritten(content, hs[k]).Some? && '\n' !in LocationDescription(content, hs[k]).value
    {
      if LocationDescription(content, hs[k]).Some? {
        IntendedImpliesAsWritten(content, hs[k]);
        LocationDescriptionSingleLine(content, hs[k]);
      }
    }
  }

  /** A marker whose line goes on is also a marker for the `re.DOTALL` search. */
  lemma IntendedImpliesAsWritten(content: string, h: Heading)
    requires LocationDescription(content, h).Some?
    ensures DescriptionAsWritten(content, h).Some?
  {
    var s := FindFrom(content, HeadingText(h), 0);
    var m := MarkerFrom(content, s + |HeadingText(h)|, false);
    assert CaptureAt(content, m, true);
  }

  /** Every match's date group has the shape `\d{4}-\d{2}-\d{2}`. */
  lemma {:induction false} HeadingsDated(lines: seq<string>, k: nat)
    requires k < |Headings(lines)|
    ensures IsDateShaped(Headings(lines)[k].date)
  {
    var first := match HeadingOf(lines[0]) case None => [] case Some(h) => [h];
    HeadingOfSpec(lines[0]);
    if k >= |first| {
      HeadingsDated(lines[1..], k - |first|);
    }
  }

  /**
    A heading visited twice: both searches start at the first occurrence of the heading
    text, so the description comes from the first visit's bullet `v`, and the second
    visit's own bullet `w` is never what the intended search reports.
   */
  lemma RepeatedHeadingFirstBullet(h: Heading, v: string, w: string, rest: string)
    requires |v| > 0 && '\n' !in v
    ensures var tail := "\n" + HeadingText(h) + LocationMarker + w + rest;
            var content := HeadingText(h) + LocationMarker + v + tail;
            LocationDescription(content, h) == Some(Strip(v))
            && DescriptionAsWritten(content, h) == Some(Strip(v + tail))
  {
    var tail := "\n" + HeadingText(h) + LocationMarker + w + rest;
    assert tail[0] == '\n';
    BulletDescription(h, v, tail);
  }

  /** A line that is exactly `### `, a date, the separator and a name is one match. */
  lemma IsHeading(line: string, date: string, name: string)
    requires IsDateShaped(date) && |name| > 0 && line == "### " + date + Dash + name
    ensures HeadingOf(line) == Some(Heading(date, name))
  {
    assert line[0..4] == "### " && line[4..14] == date && line[14..17] == Dash && line[17..] == name;
    assert HeadingAt(line, 0);
  }
}
