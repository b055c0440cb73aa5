/**
 * The playlist line scanner `M3uService.parse`. It trims the text, splits it
 * on line feeds and, for every line that starts with `#EXTINF` (the track
 * information tag of extended M3U, section 4.3.2.1 of RFC 8216), pushes one
 * entry whose `src` is the next line as it stands, or `undefined` when there
 * is no next line. Nothing else is checked: the `#EXTM3U` header (section
 * 4.3.1.1 of RFC 8216) is compared against but the comparison has no effect,
 * durations and titles are not read, and `#EXTALB`/`#EXTART` lines are
 * skipped like any other line. The scan never fails.
 */
module M3uService {
  import opened Wrappers
  import opened JsStrings
  import opened Models

  const EXTM3U: string := "#EXTM3U"
  const EXTINF: string := "#EXTINF"
  const EXTALB: string := "#EXTALB"
  const EXTART: string := "#EXTART"

  /** `content.trim().split("\n")`: never empty, and no line holds a line feed. */
  function Lines(content: string): (lines: seq<string>)
    ensures |lines| >= 1
    ensures forall i :: 0 <= i < |lines| ==> '\n' !in lines[i]
  {
    Split(Trim(content), '\n')
  }

  /** Joining the lines with line feeds gives back the trimmed text: no character is lost. */
  lemma LinesRejoinToTrimmedText(content: string)
    ensures Join(Lines(content), '\n') == Trim(content)
  {
    JoinSplit(Trim(content), '\n');
  }

  /** `lines[i]`, which is `undefined` past the last line. */
  function LineAt(lines: seq<string>, i: nat): MaybeString
  {
    if i < |lines| then Defined(lines[i]) else Undefined
  }

  /** The entry pushed for the `#EXTINF` line at index `i`: `new M3UEntry({ src: lines[i + 1] })`. */
  function EntryFor(lines: seq<string>, i: nat): (e: M3UEntry)
    ensures i + 1 < |lines| ==> e.src == Defined(lines[i + 1])
    ensures i + 1 >= |lines| ==> e.src == Undefined
  {
    NewM3UEntry(Some(PartialM3UEntry(Some(LineAt(lines, i + 1)))))
  }

  /** The entries pushed while the scan visits `lines[..n]`: at most one per line. */
  function Scan(lines: seq<string>, n: nat): (entries: seq<M3UEntry>)
    requires n <= |lines|
    ensures |entries| <= n
  {
    if n == 0 then []
    else Scan(lines, n - 1) + (if StartsWith(lines[n - 1], EXTINF) then [EntryFor(lines, n - 1)] else [])
  }

  /** The entries of the playlist `parse(content)` returns. */
  function ParsedEntries(content: string): seq<M3UEntry>
  {
    var lines := Lines(content);
    Scan(lines, |lines|)
  }

  /** The indices, below `n`, of the lines that start with `#EXTINF`, kept in line order. */
  function ExtinfIndices(lines: seq<string>, n: nat): (idx: seq<nat>)
    requires n <= |lines|
    ensures |idx| <= n
  {
    if n == 0 then []
    else ExtinfIndices(lines, n - 1) + (if StartsWith(lines[n - 1], EXTINF) then [n - 1] else [])
  }

  /** Every listed index is below `n` and is the index of a line that starts with `#EXTINF`. */
  lemma {:induction false} ExtinfIndicesAreTrackLines(lines: seq<string>, n: nat)
    requires n <= |lines|
    ensures forall k :: 0 <= k < |ExtinfIndices(lines, n)| ==>
              ExtinfIndices(lines, n)[k] < n && StartsWith(lines[ExtinfIndices(lines, n)[k]], EXTINF)
  {
    if n > 0 {
      ExtinfIndicesAreTrackLines(lines, n - 1);
    }
  }

  /** The listed indices strictly increase: the entries come in line order. */
  lemma {:induction false} ExtinfIndicesIncrease(lines: seq<string>, n: nat)
    requires n <= |lines|
    ensures forall k, l :: 0 <= k < l < |ExtinfIndices(lines, n)| ==>
              ExtinfIndices(lines, n)[k] < ExtinfIndices(lines, n)[l]
  {
    if n > 0 {
      ExtinfIndicesIncrease(lines, n - 1);
      ExtinfIndicesAreTrackLines(lines, n - 1);
    }
  }

  /** No line that starts with `#EXTINF` is missing from the list. */
  lemma {:induction false} ExtinfIndicesComplete(lines: seq<string>, n: nat)
    requires n <= |lines|
    ensures forall i :: 0 <= i < n && StartsWith(lines[i], EXTINF) ==> i in ExtinfIndices(lines, n)
  {
    if n > 0 {
      ExtinfIndicesComplete(lines, n - 1);
    }
  }

  /** `parse(content)`: a fresh playlist holding one entry per `#EXTINF` line. */
  method Parse(content: string) returns (m3u: M3U)
    ensures fresh(m3u)
    ensures m3u.entries == ParsedEntries(content)
  {
    m3u := new M3U(None);
    var lines := Lines(content);
    PushEntries(m3u, lines);
  }

  /**
   * The `lines.forEach` callback run over every line: a line that starts
   * with `#EXTINF` pushes `new M3UEntry({ src: lines[index + 1] })`.
   */
  method PushEntries(m3u: M3U, lines: seq<string>)
    modifies m3u
    ensures m3u.entries == old(m3u.entries) + Scan(lines, |lines|)
  {
    ghost var before := m3u.entries;
    var index := 0;
    while index < |lines|
      invariant 0 <= index <= |lines|
      invariant m3u.entries == before + Scan(lines, index)
    {
      var line := lines[index];
      if StartsWith(line, EXTINF) {
        var src := if index + 1 < |lines| then Defined(lines[index + 1]) else Undefined;
        m3u.entries := m3u.entries + [NewM3UEntry(Some(PartialM3UEntry(Some(src))))];
      }
      index := index + 1;
    }
  }

  /**
   * After visiting `lines[..n]`, the k-th entry belongs to the k-th
   * `#EXTINF` line and carries the line after it, verbatim.
   */
  lemma {:induction false} ScanMatchesIndices(lines: seq<string>, n: nat)
    requires n <= |lines|
    ensures |Scan(lines, n)| == |ExtinfIndices(lines, n)|
    ensures forall k :: 0 <= k < |Scan(lines, n)| ==>
              Scan(lines, n)[k].src == LineAt(lines, ExtinfIndices(lines, n)[k] + 1)
  {
    if n > 0 {
      ScanMatchesIndices(lines, n - 1);
      var es := Scan(lines, n - 1);
      var idx := ExtinfIndices(lines, n - 1);
      if StartsWith(lines[n - 1], EXTINF) {
        assert Scan(lines, n) == es + [EntryFor(lines, n - 1)];
        assert ExtinfIndices(lines, n) == idx + [n - 1];
      } else {
        assert Scan(lines, n) == es && ExtinfIndices(lines, n) == idx;
      }
    }
  }

  /** The scan pushes no entry exactly when no line starts with `#EXTINF`. */
  lemma NoEntriesIffNoExtinfLine(lines: seq<string>)
    ensures Scan(lines, |lines|) == [] <==> forall i :: 0 <= i < |lines| ==> !StartsWith(lines[i], EXTINF)
  {
    ScanMatchesIndices(lines, |lines|);
    ExtinfIndicesAreTrackLines(lines, |lines|);
    ExtinfIndicesComplete(lines, |lines|);
    var idx := ExtinfIndices(lines, |lines|);
    if idx != [] {
      assert StartsWith(lines[idx[0]], EXTINF);
    }
  }

  /** Two track lines in a row sit at neighbouring positions of the track-line indices. */
  lemma {:induction false} AdjacentExtinfIndices(lines: seq<string>, n: nat, i: nat)
    requires i + 1 < n <= |lines|
    requires StartsWith(lines[i], EXTINF) && StartsWith(lines[i + 1], EXTINF)
    ensures exists k :: 0 <= k && k + 1 < |ExtinfIndices(lines, n)|
              && ExtinfIndices(lines, n)[k] == i && ExtinfIndices(lines, n)[k + 1] == i + 1
  {
    var idx := ExtinfIndices(lines, n);
    if n == i + 2 {
      var pre := ExtinfIndices(lines, i);
      assert ExtinfIndices(lines, i + 1) == pre + [i];
      assert idx == pre + [i] + [i + 1];
      assert idx[|pre|] == i && idx[|pre| + 1] == i + 1;
    } else {
      AdjacentExtinfIndices(lines, n - 1, i);
      var prev := ExtinfIndices(lines, n - 1);
      var k :| 0 <= k && k + 1 < |prev| && prev[k] == i && prev[k + 1] == i + 1;
      assert idx[..|prev|] == prev;
      assert idx[k] == i && idx[k + 1] == i + 1;
    }
  }

  /**
   * Two `#EXTINF` lines in a row: the first one's entry takes the second
   * line as its `src`, and the second line still starts the very next entry.
   */
  lemma ConsecutiveExtinfLines(lines: seq<string>, i: nat)
    requires i + 1 < |lines|
    requires StartsWith(lines[i], EXTINF) && StartsWith(lines[i + 1], EXTINF)
    ensures exists k :: 0 <= k && k + 1 < |Scan(lines, |lines|)|
              && k + 1 < |ExtinfIndices(lines, |lines|)|
              && ExtinfIndices(lines, |lines|)[k] == i && ExtinfIndices(lines, |lines|)[k + 1] == i + 1
              && Scan(lines, |lines|)[k].src == Defined(lines[i + 1])
              && Scan(lines, |lines|)[k + 1].src == LineAt(lines, i + 2)
  {
    var es := Scan(lines, |lines|);
    var idx := ExtinfIndices(lines, |lines|);
    ScanMatchesIndices(lines, |lines|);
    AdjacentExtinfIndices(lines, |lines|, i);
    var k :| 0 <= k && k + 1 < |idx| && idx[k] == i && idx[k + 1] == i + 1;
    assert es[k].src == Defined(lines[i + 1]);
    assert es[k + 1].src == LineAt(lines, i + 2);
  }

  /** When the last line starts with `#EXTINF`, the last entry's `src` is `undefined`. */
  lemma LastExtinfLineHasUndefinedSrc(lines: seq<string>)
    requires |lines| >= 1 && StartsWith(lines[|lines| - 1], EXTINF)
    ensures Scan(lines, |lines|) != []
    ensures Scan(lines, |lines|)[|Scan(lines, |lines|)| - 1].src == Undefined
  {
  }

  /** Empty or whitespace-only text gives an empty playlist: `"".split("\n")` is `[""]`. */
  lemma WhitespaceContentHasNoEntries(content: string)
    requires forall i :: 0 <= i < |content| ==> IsJsWhitespace(content[i])
    ensures ParsedEntries(content) == []
  {
    TrimEmptyIffAllWhitespace(content);
    assert Trim(content) == "";
    assert Split("", '\n') == [""];
    assert Lines(content) == [""];
    assert !StartsWith("", EXTINF);
  }

  /** Text that is already trimmed and made of the given lines splits into exactly those lines. */
  lemma LinesOfJoin(content: string, parts: seq<string>)
    requires |parts| >= 1
    requires forall i :: 0 <= i < |parts| ==> '\n' !in parts[i]
    requires IsTrimmed(Join(parts, '\n'))
    requires content == Join(parts, '\n')
    ensures Lines(content) == parts
  {
    TrimOfTrimmed(Join(parts, '\n'));
    SplitJoin(parts, '\n');
  }

  /** Trimming removes a final CR LF from text that is otherwise trimmed. */
  lemma TrimDropsFinalLineEnd(body: string)
    requires IsTrimmed(body)
    ensures Trim(body + "\r\n") == body
  {
    var s := body + "\r\n";
    if body == [] {
      assert s == "\r\n";
      assert forall i :: 0 <= i < |s| ==> IsJsWhitespace(s[i]);
      TrimEmptyIffAllWhitespace(s);
    } else {
      assert TrimStart(s) == s;
      assert s[..|s| - 1] == body + "\r";
      assert (body + "\r")[..|body|] == body;
    }
  }

  /** Text made of the given lines and then a CR LF splits into exactly those lines. */
  lemma LinesOfJoinWithLineEnd(content: string, parts: seq<string>)
    requires |parts| >= 1
    requires forall i :: 0 <= i < |parts| ==> '\n' !in parts[i]
    requires IsTrimmed(Join(parts, '\n'))
    requires content == Join(parts, '\n') + "\r\n"
    ensures Lines(content) == parts
  {
    TrimDropsFinalLineEnd(Join(parts, '\n'));
    SplitJoin(parts, '\n');
  }

  /** A playlist without the `#EXTM3U` header still yields its entry: no header check happens. */
  lemma MissingHeaderIsAccepted(content: string)
    requires content == "#EXTINF:10,X\na.mp3"
    ensures ParsedEntries(content) == [M3UEntry(Defined("a.mp3"))]
  {
    var parts := ["#EXTINF:10,X", "a.mp3"];
    assert Join(parts, '\n') == content;
    LinesOfJoin(content, parts);
    ScanOfHeaderlessLines(parts);
  }

  /** The scan of the lines of the header-less playlist above. */
  lemma ScanOfHeaderlessLines(parts: seq<string>)
    requires parts == ["#EXTINF:10,X", "a.mp3"]
    ensures Scan(parts, |parts|) == [M3UEntry(Defined("a.mp3"))]
  {
    assert parts[0][..7] == EXTINF && Scan(parts, 1) == [M3UEntry(Defined("a.mp3"))];
    assert |parts[1]| < 7;
  }

  /** A trailing `#EXTINF` line gives an entry whose `src` is `undefined`; no truncation error. */
  lemma TruncatedEntryHasUndefinedSrc(content: string)
    requires content == "#EXTM3U\n#EXTINF:5,Last"
    ensures ParsedEntries(content) == [M3UEntry(Undefined)]
  {
    var parts := ["#EXTM3U", "#EXTINF:5,Last"];
    assert Join(parts, '\n') == content;
    LinesOfJoin(content, parts);
    ScanOfTruncatedLines(parts);
  }

  /** The scan of the lines of the truncated playlist above. */
  lemma ScanOfTruncatedLines(parts: seq<string>)
    requires parts == ["#EXTM3U", "#EXTINF:5,Last"]
    ensures Scan(parts, |parts|) == [M3UEntry(Undefined)]
  {
    assert parts[0][4] != EXTINF[4] && Scan(parts, 1) == [];
    assert parts[1][..7] == EXTINF;
  }

  /**
   * Carriage returns before the line feeds survive into `src`; only the one
   * at the very end of the text is trimmed away.
   */
  lemma CarriageReturnsSurviveInSrc(content: string)
    requires content == "#EXTINF:1\r\na\r\n#EXTINF:2\r\nb\r\n"
    ensures ParsedEntries(content) == [M3UEntry(Defined("a\r")), M3UEntry(Defined("b"))]
  {
    var parts := ["#EXTINF:1\r", "a\r", "#EXTINF:2\r", "b"];
    assert Join(parts[2..], '\n') == "#EXTINF:2\r\nb";
    assert Join(parts, '\n') == "#EXTINF:1\r\na\r\n#EXTINF:2\r\nb";
    LinesOfJoinWithLineEnd(content, parts);
    ScanOfCrLfLines(parts);
  }

  /** The scan of the four lines left once the text above is trimmed and split. */
  lemma ScanOfCrLfLines(parts: seq<string>)
    requires parts == ["#EXTINF:1\r", "a\r", "#EXTINF:2\r", "b"]
    ensures Scan(parts, |parts|) == [M3UEntry(Defined("a\r")), M3UEntry(Defined("b"))]
  {
    var first := M3UEntry(Defined("a\r"));
    assert parts[0][..7] == EXTINF && Scan(parts, 1) == [first];
    assert |parts[1]| < 7 && Scan(parts, 2) == [first];
    assert parts[2][..7] == EXTINF && Scan(parts, 3) == [first, M3UEntry(Defined("b"))];
    assert |parts[3]| < 7;
  }

  /**
   * `#EXTINFX` counts as a track line, since only the prefix is compared, and
   * a track line right after it is both its `src` and the start of its own entry.
   */
  lemma PrefixMatchAndChainedTrackLines(content: string)
    requires content == "#EXTINFX\n#EXTINF:1\na"
    ensures ParsedEntries(content) == [M3UEntry(Defined("#EXTINF:1")), M3UEntry(Defined("a"))]
  {
    var parts := ["#EXTINFX", "#EXTINF:1", "a"];
    assert Join(parts, '\n') == content;
    LinesOfJoin(content, parts);
    ScanOfChainedLines(parts);
  }

  /** The scan of the three lines of the playlist above. */
  lemma ScanOfChainedLines(parts: seq<string>)
    requires parts == ["#EXTINFX", "#EXTINF:1", "a"]
    ensures Scan(parts, |parts|) == [M3UEntry(Defined("#EXTINF:1")), M3UEntry(Defined("a"))]
  {
    var first := M3UEntry(Defined("#EXTINF:1"));
    assert parts[0][..7] == EXTINF && Scan(parts, 1) == [first];
    assert parts[1][..7] == EXTINF && Scan(parts, 2) == [first, M3UEntry(Defined("a"))];
    assert |parts[2]| < 7;
  }
}
