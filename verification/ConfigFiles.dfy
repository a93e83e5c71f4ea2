/** The configuration file as text: every setting read before an edit and after it. */
module ConfigFiles {
  import opened ConfigEditor
  import opened ConfigSections
  import opened ConfigText
  import opened Wrappers

  // Text and lines

  predicate OneLine(s: string) {
    '\r' !in s && '\n' !in s
  }

  function LineLength(text: string): (r: nat)
    ensures r <= |text|
    ensures OneLine(text[..r])
    ensures r < |text| ==> text[r] == '\r' || text[r] == '\n'
  {
    if text == "" || text[0] == '\r' || text[0] == '\n' then 0
    else
      assert text == [text[0]] + text[1..];
      assert text[..1 + LineLength(text[1..])] == [text[0]] + text[1..][..LineLength(text[1..])];
      1 + LineLength(text[1..])
  }

  /** A line ends with a carriage return, a line feed, or both in this order. */
  function SplitLines(text: string): seq<string>
    decreases |text|
  {
    if text == "" then []
    else
      var n := LineLength(text);
      if n == |text| then [text]
      else
        [text[..n]] + SplitLines(text[LineEnd(text, n)..])
  }

  /** Where the line end at n ends. */
  function LineEnd(text: string, n: nat): (end: nat)
    requires n < |text|
    ensures n < end <= |text|
  {
    if text[n] == '\r' && n + 1 < |text| && text[n + 1] == '\n' then n + 2 else n + 1
  }

  lemma {:induction false} LinesAreSingle(text: string, i: nat)
    requires i < |SplitLines(text)|
    ensures OneLine(SplitLines(text)[i])
    decreases |text|
  {
    var n := LineLength(text);
    assert OneLine(text[..n]);
    if n == |text| {
      assert text[..n] == text;
    } else if i > 0 {
      LinesAreSingle(text[LineEnd(text, n)..], i - 1);
    }
  }

  function Terminated(lines: seq<string>, newline: string): string {
    if lines == [] then "" else lines[0] + newline + Terminated(lines[1..], newline)
  }

  /** The lines joined by line ends, and one more line end. */
  function TextOf(lines: seq<string>, newline: string): string {
    if lines == [] then newline else Terminated(lines, newline)
  }

  predicate IsNewline(newline: string) {
    newline == "\n" || newline == "\r\n"
  }

  lemma {:induction false} FirstLineLength(line: string, rest: string)
    requires OneLine(line) && rest != "" && (rest[0] == '\r' || rest[0] == '\n')
    ensures LineLength(line + rest) == |line|
  {
    if line == "" {
      assert line + rest == rest;
    } else {
      assert (line + rest)[1..] == line[1..] + rest;
      FirstLineLength(line[1..], rest);
    }
  }

  lemma FirstLineSplit(line: string, newline: string, rest: string)
    requires OneLine(line) && IsNewline(newline)
    ensures SplitLines(line + newline + rest) == [line] + SplitLines(rest)
  {
    var text := line + newline + rest;
    assert text == line + (newline + rest);
    FirstLineLength(line, newline + rest);
    assert text[..|line|] == line;
    assert text[|line| + |newline|..] == rest;
    assert newline == "\n" ==> text[|line|] == '\n';
    assert newline == "\r\n" ==> text[|line|] == '\r' && text[|line| + 1] == '\n';
  }

  /** A carriage return alone ends a line as well. */
  lemma LoneReturnSplit(line: string, rest: string)
    requires OneLine(line) && (rest == "" || rest[0] != '\n')
    ensures SplitLines(line + ['\r'] + rest) == [line] + SplitLines(rest)
  {
    var text := line + ['\r'] + rest;
    assert text == line + (['\r'] + rest);
    FirstLineLength(line, ['\r'] + rest);
    assert text[..|line|] == line && text[|line|] == '\r' && text[|line| + 1..] == rest;
    assert rest != "" ==> text[|line| + 1] == rest[0];
  }

  lemma {:induction false} WholeLineLength(line: string)
    requires OneLine(line)
    ensures LineLength(line) == |line|
  {
    if line != "" {
      WholeLineLength(line[1..]);
    }
  }

  /** What follows the last line end is a line too, unless it is empty. */
  lemma LastLineSplit(line: string)
    requires OneLine(line)
    ensures SplitLines(line) == if line == "" then [] else [line]
  {
    WholeLineLength(line);
    assert line[..|line|] == line;
  }

  lemma {:induction false} SplitTerminated(lines: seq<string>, newline: string)
    requires IsNewline(newline)
    requires forall i :: 0 <= i < |lines| ==> OneLine(lines[i])
    ensures SplitLines(Terminated(lines, newline)) == lines
  {
    if lines != [] {
      FirstLineSplit(lines[0], newline, Terminated(lines[1..], newline));
      SplitTerminated(lines[1..], newline);
    }
  }

  /** What is written is read back, but for an empty list, which reads as one blank line. */
  lemma SplitTextOf(lines: seq<string>, newline: string)
    requires IsNewline(newline)
    requires forall i :: 0 <= i < |lines| ==> OneLine(lines[i])
    ensures SplitLines(TextOf(lines, newline)) == if lines == [] then [""] else lines
  {
    if lines == [] {
      FirstLineSplit("", newline, "");
      assert "" + newline + "" == newline;
    } else {
      SplitTerminated(lines, newline);
    }
  }

  // Reading one setting

  const READER: Reader := Meaning

  /** What a setting reads as; a missing file has none. */
  function Stored(text: Option<string>, section: string, key: string): Option<string> {
    if text.None? then None else Get(READER, SplitLines(text.value), section, key)
  }

  const TITLE := "# WiiCompiled user configuration"
  const PATHS_HEADER := "[paths]"

  function DefaultLines(): seq<string> {
    [TITLE, "", PATHS_HEADER]
  }

  function Loaded(text: Option<string>): seq<string> {
    if text.None? then DefaultLines() else SplitLines(text.value)
  }

  lemma {:induction false} NoPairNoValue(lines: seq<Line>, header: string, key: string, inside: bool)
    requires forall i :: 0 <= i < |lines| ==> !lines[i].Pair?
    ensures Read(lines, header, key, inside) == None
    decreases lines
  {
    if lines != [] {
      NoPairNoValue(lines[1..], header, key, Entered(lines[0], header, inside));
    }
  }

  lemma CommentMeaning(comment: string)
    requires comment != "" && comment[0] == '#'
    ensures !READER(comment).Pair?
  {
    assert Uncommented(OUTSIDE, comment) == "";
  }

  lemma HeaderIsNoPair(header: string)
    requires IsSection(header) && forall i :: 0 <= i < |header| ==> Plain(header[i])
    ensures !READER(header).Pair?
  {
    PlainText(header);
    HeaderMeaning(header);
  }

  lemma ThreeLinesWithoutPair(read: Reader, a: string, b: string, c: string, header: string, key: string)
    requires !read(a).Pair? && !read(b).Pair? && !read(c).Pair?
    ensures Read(Mapped(read, [a, b, c]), header, key, false) == None
  {
    NoPairNoValue(Mapped(read, [a, b, c]), header, key, false);
  }

  /** A comment, a blank line and a header set nothing. */
  lemma NothingInHeader(title: string, blank: string, header: string, section: string, key: string)
    requires title != "" && title[0] == '#' && blank == ""
    requires IsSection(header) && forall i :: 0 <= i < |header| ==> Plain(header[i])
    ensures Get(READER, [title, blank, header], section, key) == None
  {
    CommentMeaning(title);
    BlankMeaning();
    HeaderIsNoPair(header);
    ThreeLinesWithoutPair(READER, title, blank, header, HeaderOf(section), key);
  }

  /** The first path stored in a missing file: a title, a blank line, the section and the path. */
  lemma FreshFile(section: string, key: string, value: string)
    requires HeaderOf(section) == PATHS_HEADER
    ensures SetLine(READER, Loaded(None), section, key, Assignment(key, value)) ==
            [TITLE, "", PATHS_HEADER, Assignment(key, value)]
  {
    FreshHeader(TITLE, PATHS_HEADER);
    FreshPlace(READER, TITLE, "", PATHS_HEADER, section, key, Assignment(key, value));
  }

  lemma FreshHeader(title: string, header: string)
    requires title != "" && title[0] == '#'
    requires IsSection(header) && forall i :: 0 <= i < |header| ==> Plain(header[i])
    ensures READER(title) != Header(header) && !READER(title).Pair? && READER("") == Blank && READER(header) == Header(header)
  {
    CommentIsNothing(title);
    BlankMeaning();
    PlainText(header);
    HeaderMeaning(header);
  }

  lemma FreshPlace(read: Reader, title: string, blank: string, header: string, section: string, key: string, assignment: string)
    requires read(title) != Header(header) && read(blank) == Blank && read(header) == Header(header)
    requires header == HeaderOf(section)
    ensures SetLine(read, [title, blank, header], section, key, assignment) == [title, blank, header, assignment]
  {
    var m := Mapped(read, [title, blank, header]);
    FirstIs(m, 0, 3, Section(header), 2);
    assert PlaceOf(m, header, key) == Insert(3);
  }

  lemma CommentIsNothing(comment: string)
    requires comment != "" && comment[0] == '#'
    ensures !READER(comment).Pair? && !READER(comment).Header?
  {
    assert Uncommented(OUTSIDE, comment) == "";
  }

  /** The file a fresh installation starts from has no setting. */
  lemma DefaultHasNothing(section: string, key: string)
    ensures Get(READER, DefaultLines(), section, key) == None
  {
    NothingInHeader(TITLE, "", PATHS_HEADER, section, key);
  }

  lemma LoadedReadsAsStored(text: Option<string>, section: string, key: string)
    ensures Get(READER, Loaded(text), section, key) == Stored(text, section, key)
  {
    if text.None? {
      DefaultHasNothing(section, key);
    }
  }

  lemma LoadedLinesAreSingle(text: Option<string>)
    ensures forall i :: 0 <= i < |Loaded(text)| ==> OneLine(Loaded(text)[i])
  {
    if text.Some? {
      forall i | 0 <= i < |Loaded(text)|
        ensures OneLine(Loaded(text)[i])
      {
        LinesAreSingle(text.value, i);
      }
    }
  }

  // Editing the file

  predicate Editable(section: string, key: string) {
    CleanSection(section) && CleanKey(key) && OneLine(section) && OneLine(key)
  }

  function Assignment(key: string, value: string): string {
    key + ASSIGN + value
  }

  function FileAfterSet(text: Option<string>, newline: string, section: string, key: string, value: string): string {
    TextOf(SetLine(READER, Loaded(text), section, key, Assignment(key, value)), newline)
  }

  lemma ReaderUnderstands(section: string, key: string, value: string)
    requires Editable(section, key)
    ensures Understands(READER, section, key, Assignment(key, value), Normal(value))
  {
    HeaderMeaning(HeaderOf(section));
    BlankMeaning();
    AssignmentMeaning(key, value);
  }

  lemma SetLinesAreSingle(read: Reader, lines: seq<string>, section: string, key: string, assignment: string)
    requires forall i :: 0 <= i < |lines| ==> OneLine(lines[i])
    requires OneLine(section) && OneLine(assignment)
    ensures var after := SetLine(read, lines, section, key, assignment);
      after != [] && forall i :: 0 <= i < |after| ==> OneLine(after[i])
  {
    assert OneLine(HeaderOf(section));
    assert OneLine("");
    var after := SetLine(read, lines, section, key, assignment);
    forall i | 0 <= i < |after|
      ensures OneLine(after[i])
    {
      LineOfEdit(read, lines, section, key, assignment, i);
    }
  }

  /** Every line after an edit was there before, or is one of the three the edit writes. */
  lemma LineOfEdit(read: Reader, lines: seq<string>, section: string, key: string, assignment: string, i: nat)
    requires i < |SetLine(read, lines, section, key, assignment)|
    ensures var line := SetLine(read, lines, section, key, assignment)[i];
      line in lines || line == assignment || line == "" || line == HeaderOf(section)
  {
    var place := PlaceOf(Mapped(read, lines), HeaderOf(section), key);
    if place.Append? && i >= |lines| {
      assert SetLine(read, lines, section, key, assignment)[i] in {"", HeaderOf(section), assignment};
    }
  }

  /** Through the file: the setting reads as it was written, every other one as before. */
  lemma SetThenStored(text: Option<string>, newline: string, section: string, key: string, value: string,
                      section': string, key': string)
    requires Editable(section, key) && OneLine(value) && IsNewline(newline)
    ensures Stored(Some(FileAfterSet(text, newline, section, key, value)), section', key') ==
            if (section', key') == (section, key) then Some(Normal(value)) else Stored(text, section', key')
  {
    var lines, assignment := Loaded(text), Assignment(key, value);
    LoadedLinesAreSingle(text);
    assert OneLine(ASSIGN);
    SetLinesAreSingle(READER, lines, section, key, assignment);
    SplitTextOf(SetLine(READER, lines, section, key, assignment), newline);
    ReaderUnderstands(section, key, value);
    SetThenGet(READER, lines, section, key, assignment, Normal(value), section', key');
    LoadedReadsAsStored(text, section', key');
  }

  /** Through the file: the second of two settings leaves what it alone would leave. */
  lemma StoredTwice(text: Option<string>, newline: string, section: string, key: string, first: string, second: string)
    requires Editable(section, key) && OneLine(first) && IsNewline(newline)
    ensures FileAfterSet(Some(FileAfterSet(text, newline, section, key, first)), newline, section, key, second) ==
            FileAfterSet(text, newline, section, key, second)
  {
    var lines, assignment := Loaded(text), Assignment(key, first);
    LoadedLinesAreSingle(text);
    assert OneLine(ASSIGN);
    SetLinesAreSingle(READER, lines, section, key, assignment);
    SplitTextOf(SetLine(READER, lines, section, key, assignment), newline);
    ReaderUnderstands(section, key, first);
    ConfigEditor.SetTwice(READER, lines, section, key, assignment, Assignment(key, second), Normal(first));
  }

  /** One setting now reads as `value`, and every other one as before. */
  ghost predicate OnlyChanged(before: Option<string>, after: Option<string>, section: string, key: string,
                              value: Option<string>)
  {
    forall section', key' :: (
      Stored(after, section', key') == if (section', key') == (section, key) then value else Stored(before, section', key'))
  }

  lemma SetChangesOne(text: Option<string>, newline: string, section: string, key: string, value: string)
    requires Editable(section, key) && OneLine(value) && IsNewline(newline)
    ensures OnlyChanged(text, Some(FileAfterSet(text, newline, section, key, value)), section, key, Some(Normal(value)))
  {
    forall section', key' {
      SetThenStored(text, newline, section, key, value, section', key');
    }
  }

  function FileAfterRemoval(text: string, newline: string, section: string, key: string): string
    requires Get(READER, SplitLines(text), section, key).Some?
  {
    TextOf(RemoveLine(READER, SplitLines(text), section, key), newline)
  }

  lemma NothingInBlank(read: Reader, header: string, key: string)
    requires read("") == Blank
    ensures Read(Mapped(read, [""]), header, key, false) == None
    ensures Read(Mapped(read, []), header, key, false) == None
  {
    NoPairNoValue(Mapped(read, [""]), header, key, false);
  }

  lemma RemovedLinesAreSingle(read: Reader, text: string, section: string, key: string)
    requires Get(read, SplitLines(text), section, key).Some?
    ensures var after := RemoveLine(read, SplitLines(text), section, key);
      forall i :: 0 <= i < |after| ==> OneLine(after[i])
  {
    var lines := SplitLines(text);
    var at := Position(Mapped(read, lines), HeaderOf(section), key, false);
    forall i | 0 <= i < |lines| - 1
      ensures OneLine(Removed(lines, at)[i])
    {
      LinesAreSingle(text, if i < at then i else i + 1);
    }
  }

  lemma RemovedThenLoaded(read: Reader, text: string, newline: string, section: string, key: string,
                          section': string, key': string)
    requires IsNewline(newline) && read("") == Blank && Get(read, SplitLines(text), section, key).Some?
    ensures var after := RemoveLine(read, SplitLines(text), section, key);
      Get(read, SplitLines(TextOf(after, newline)), section', key') == Get(read, after, section', key')
  {
    var after := RemoveLine(read, SplitLines(text), section, key);
    RemovedLinesAreSingle(read, text, section, key);
    SplitTextOf(after, newline);
    if after == [] {
      NothingInBlank(read, HeaderOf(section'), key');
    }
  }

  /** How often the file gives the setting a value; the reader sees the first. */
  function Mentions(text: string, section: string, key: string): nat {
    Occurrences(Mapped(READER, SplitLines(text)), HeaderOf(section), key, false)
  }

  lemma RemovedThenStored(text: string, newline: string, section: string, key: string, section': string, key': string)
    requires IsNewline(newline) && Get(READER, SplitLines(text), section, key).Some?
    ensures var after := Some(FileAfterRemoval(text, newline, section, key));
      && ((section', key') != (section, key) ==> Stored(after, section', key') == Stored(Some(text), section', key'))
      && (Stored(after, section, key) == None <==> Mentions(text, section, key) == 1)
  {
    BlankMeaning();
    RemovedThenLoaded(READER, text, newline, section, key, section', key');
    RemovedThenLoaded(READER, text, newline, section, key, section, key);
    ConfigEditor.RemoveThenGet(READER, SplitLines(text), section, key, section', key');
  }

  /** A removal leaves every other setting alone, and the removed one is gone exactly
      when the file mentioned it once. */
  lemma RemovalChangesOne(text: string, newline: string, section: string, key: string)
    requires IsNewline(newline) && Stored(Some(text), section, key).Some?
    ensures var after := Some(FileAfterRemoval(text, newline, section, key));
      && OnlyChanged(Some(text), after, section, key, Stored(after, section, key))
      && (Stored(after, section, key) == None <==> Mentions(text, section, key) == 1)
  {
    var after := Some(FileAfterRemoval(text, newline, section, key));
    forall section', key'
      ensures (section', key') != (section, key) ==> Stored(after, section', key') == Stored(Some(text), section', key')
    {
      RemovedThenStored(text, newline, section, key, section', key');
    }
    RemovedThenStored(text, newline, section, key, section, key);
  }

  /** What a path setting reads as. */
  function StoredPath(text: Option<string>, key: string): Option<string> {
    var raw := Stored(text, "paths", key);
    if raw.None? then None else Unquoted(raw.value)
  }

  lemma {:induction false} EscapedIsOneLine(s: string)
    requires OneLine(s)
    ensures OneLine(Escaped(s))
  {
    if s != "" {
      assert OneLine(EscapedChar(s[0]));
      EscapedIsOneLine(s[1..]);
    }
  }

  lemma QuotedIsOneLine(value: string)
    requires OneLine(value)
    ensures OneLine(Quote(value))
  {
    EscapedIsOneLine(value);
    QuoteShape(value);
  }

  lemma PathReadBack(before: Option<string>, after: Option<string>, key: string, raw: string)
    requires OnlyChanged(before, after, "paths", key, Some(raw))
    ensures StoredPath(after, key) == Unquoted(raw)
  {
    ChangedAsAsked(before, after, "paths", key, Some(raw));
  }

  lemma ChangedAsAsked(before: Option<string>, after: Option<string>, section: string, key: string, value: Option<string>)
    requires OnlyChanged(before, after, section, key, value)
    ensures Stored(after, section, key) == value
  {
  }

  lemma OthersKept(
    before: Option<string>, after: Option<string>, section: string, key: string, value: Option<string>,
    section': string, key': string)
    requires OnlyChanged(before, after, section, key, value) && (section', key') != (section, key)
    ensures Stored(after, section', key') == Stored(before, section', key')
  {
  }

  lemma OtherPathKept(before: Option<string>, after: Option<string>, key: string, value: string, other: string)
    requires OnlyChanged(before, after, "paths", key, Some(Quote(value))) && key != other
    ensures StoredPath(after, other) == StoredPath(before, other)
  {
    OthersKept(before, after, "paths", key, Some(Quote(value)), "paths", other);
  }

  lemma VrIsEditable()
    ensures Editable("vr", "enabled") && OneLine("true")
  {
    PlainText(HeaderOf("vr"));
  }

  /** The two keys setup writes. */
  lemma PathKeysAreEditable()
    ensures Editable("paths", "dvd_root") && Editable("paths", "retro_rewind_root")
  {
    PathsIsClean();
    PathKeysAreClean();
  }

  lemma PathsIsClean()
    ensures CleanSection("paths") && OneLine("paths")
  {
    PlainText(HeaderOf("paths"));
  }

  lemma PathKeysAreClean()
    ensures CleanKey("dvd_root") && OneLine("dvd_root")
    ensures CleanKey("retro_rewind_root") && OneLine("retro_rewind_root")
  {
  }

  class ConfigFile {
    const newline: string
    var text: Option<string>

    predicate Valid()
      reads this
    {
      IsNewline(newline)
    }

    constructor (newline: string, text: Option<string>)
      requires IsNewline(newline)
      ensures Valid() && this.newline == newline && this.text == text
    {
      this.newline, this.text := newline, text;
    }

    method SetValue(section: string, key: string, value: string)
      requires Valid() && Editable(section, key) && OneLine(value)
      modifies this`text
      ensures text == Some(FileAfterSet(old(text), newline, section, key, value))
      ensures OnlyChanged(old(text), text, section, key, Some(Normal(value)))
    {
      var lines := new ConfigLines(READER, Loaded(text));
      SetChangesOne(text, newline, section, key, value);
      lines.SetSectionValue(section, key, Assignment(key, value));
      text := Some(TextOf(lines.lines, newline));
    }

    /** Whatever single-line path is stored, it is the path that is read. */
    method SetPath(key: string, value: string)
      requires Valid() && Editable("paths", key) && OneLine(value)
      modifies this`text
      ensures StoredPath(text, key) == Some(value)
      ensures OnlyChanged(old(text), text, "paths", key, Some(Quote(value)))
    {
      QuotedIsOneLine(value);
      QuoteIsNormal(value);
      QuotingRoundTrip(value);
      var raw := Quote(value);
      SetValue("paths", key, raw);
      PathReadBack(old(text), text, key, Normal(raw));
    }

    method SetDvdRoot(value: string)
      requires Valid() && OneLine(value)
      modifies this`text
      ensures StoredPath(text, "dvd_root") == Some(value)
      ensures StoredPath(text, "retro_rewind_root") == old(StoredPath(text, "retro_rewind_root"))
    {
      PathKeysAreEditable();
      SetPath("dvd_root", value);
      OtherPathKept(old(text), text, "dvd_root", value, "retro_rewind_root");
    }

    method SetRetroRewindRoot(value: string)
      requires Valid() && OneLine(value)
      modifies this`text
      ensures StoredPath(text, "retro_rewind_root") == Some(value)
      ensures StoredPath(text, "dvd_root") == old(StoredPath(text, "dvd_root"))
    {
      PathKeysAreEditable();
      SetPath("retro_rewind_root", value);
      OtherPathKept(old(text), text, "retro_rewind_root", value, "dvd_root");
    }

    /** Enables VR unless the file says anything about it. */
    method EnsureVrEnabledByDefault()
      requires Valid()
      modifies this`text
      ensures old(Stored(text, "vr", "enabled")).Some? ==> text == old(text)
      ensures old(Stored(text, "vr", "enabled")).None? ==> OnlyChanged(old(text), text, "vr", "enabled", Some(Normal("true")))
    {
      if text.Some? {
        var raw := GetRawValue(READER, SplitLines(text.value), "vr", "enabled");
        if raw.Some? {
          return;
        }
      }
      VrIsEditable();
      SetValue("vr", "enabled", "true");
    }

    /** Removes a path the caller owns; anything else is left as it is. */
    method RemovePathIfOwned(key: string, owned: string -> bool)
      requires Valid()
      modifies this`text
      ensures var path := old(StoredPath(text, key));
        if path.Some? && owned(path.value) then
          && OnlyChanged(old(text), text, "paths", key, Stored(text, "paths", key))
          && (Stored(text, "paths", key) == None <==> Mentions(old(text).value, "paths", key) == 1)
        else text == old(text)
    {
      if text.None? {
        return;
      }
      var lines := new ConfigLines(READER, SplitLines(text.value));
      var changed := lines.RemovePathIfOwned(key, owned);
      if changed {
        RemovalChangesOne(text.value, newline, "paths", key);
        text := Some(TextOf(lines.lines, newline));
      }
    }
  }
}
