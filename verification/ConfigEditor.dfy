/** The editor of the configuration file: its lines, and the file they are stored in. */
module ConfigEditor {
  import opened ConfigSections
  import opened ConfigText
  import opened Wrappers

  function HeaderOf(section: string): string {
    "[" + section + "]"
  }

  /** How one line is read. */
  type Reader = string -> Line

  function Get(read: Reader, lines: seq<string>, section: string, key: string): Option<string> {
    Read(Mapped(read, lines), HeaderOf(section), key, false)
  }

  predicate Gap(lines: seq<string>) {
    lines != [] && lines[|lines| - 1] != ""
  }

  /** The lines after the key is assigned. */
  function SetLine(read: Reader, lines: seq<string>, section: string, key: string, assignment: string): seq<string> {
    Edited(lines, PlaceOf(Mapped(read, lines), HeaderOf(section), key), HeaderOf(section), assignment, "", Gap(lines))
  }

  /** What an edit writes: one line replaced, one line more at its place, or at the end the
      section and the line, after a blank line if the text does not end with one. */
  lemma SetLineExactly(read: Reader, lines: seq<string>, section: string, key: string, assignment: string)
    ensures var after := SetLine(read, lines, section, key, assignment);
      match PlaceOf(Mapped(read, lines), "[" + section + "]", key)
      case Replace(at) =>
        && |after| == |lines| && after[at] == assignment
        && forall i :: 0 <= i < |lines| && i != at ==> after[i] == lines[i]
      case Insert(at) =>
        && |after| == |lines| + 1 && after[at] == assignment
        && forall i :: 0 <= i < |lines| ==> after[if i < at then i else i + 1] == lines[i]
      case Append =>
        after == lines + (if lines == [] || lines[|lines| - 1] == "" then [] else [""]) + ["[" + section + "]", assignment]
  {
  }

  lemma HeadersDiffer(section: string, section': string)
    ensures HeaderOf(section) == HeaderOf(section') <==> section == section'
  {
    assert HeaderOf(section)[1..|section| + 1] == section;
    assert HeaderOf(section')[1..|section'| + 1] == section';
  }

  /** The reader understands what the editor writes. */
  predicate Understands(read: Reader, section: string, key: string, assignment: string, value: string) {
    && read(HeaderOf(section)) == Header(HeaderOf(section)) && read("") == Blank
    && read(assignment) == Pair(key, value)
  }

  lemma MeaningsOfEdited(read: Reader, lines: seq<string>, place: Place, header: string, assignment: string, gap: bool)
    requires place.Replace? ==> place.at < |lines|
    requires place.Insert? ==> place.at <= |lines|
    ensures Mapped(read, Edited(lines, place, header, assignment, "", gap)) ==
            Edited(Mapped(read, lines), place, read(header), read(assignment), read(""), gap)
  {
  }

  lemma MeaningsOfSet(read: Reader, lines: seq<string>, section: string, key: string, assignment: string, value: string)
    requires Understands(read, section, key, assignment, value)
    ensures Mapped(read, SetLine(read, lines, section, key, assignment)) ==
            Set(Mapped(read, lines), HeaderOf(section), key, value, Gap(lines))
  {
    var header := HeaderOf(section);
    MeaningsOfEdited(read, lines, PlaceOf(Mapped(read, lines), header, key), header, assignment, Gap(lines));
  }

  /** Setting a value makes exactly one key read differently. */
  lemma SetThenGet(read: Reader, lines: seq<string>, section: string, key: string, assignment: string, value: string,
                   section': string, key': string)
    requires Understands(read, section, key, assignment, value)
    ensures Get(read, SetLine(read, lines, section, key, assignment), section', key') ==
            if (section', key') == (section, key) then Some(value) else Get(read, lines, section', key')
  {
    HeadersDiffer(section, section');
    MeaningsOfSet(read, lines, section, key, assignment, value);
    SetThenRead(Mapped(read, lines), HeaderOf(section), key, value, Gap(lines), HeaderOf(section'), key');
  }

  /** Setting twice leaves the lines that the second setting alone would leave. */
  lemma SetTwice(read: Reader, lines: seq<string>, section: string, key: string, first: string, second: string, value: string)
    requires Understands(read, section, key, first, value)
    ensures SetLine(read, SetLine(read, lines, section, key, first), section, key, second) ==
            SetLine(read, lines, section, key, second)
  {
    var header, m := HeaderOf(section), Mapped(read, lines);
    MeaningsOfSet(read, lines, section, key, first, value);
    PlaceAfterSet(m, header, key, value, Gap(lines));
    EditedTwice(lines, PlaceOf(m, header, key), header, first, second, "", Gap(lines));
  }

  function RemoveLine(read: Reader, lines: seq<string>, section: string, key: string): seq<string>
    requires Get(read, lines, section, key).Some?
  {
    Removed(lines, Position(Mapped(read, lines), HeaderOf(section), key, false))
  }

  /** Removing the line a key is read from changes no other key, and takes away the
      key itself exactly when the file named it once. */
  lemma RemoveThenGet(read: Reader, lines: seq<string>, section: string, key: string, section': string, key': string)
    requires Get(read, lines, section, key).Some?
    ensures (section', key') != (section, key) ==>
              Get(read, RemoveLine(read, lines, section, key), section', key') == Get(read, lines, section', key')
    ensures Get(read, RemoveLine(read, lines, section, key), section, key) == None
       <==> Occurrences(Mapped(read, lines), HeaderOf(section), key, false) == 1
  {
    HeadersDiffer(section, section');
    var m := Mapped(read, lines);
    var at := Position(m, HeaderOf(section), key, false);
    assert Mapped(read, Removed(lines, at)) == Removed(m, at);
    RemoveThenRead(m, HeaderOf(section), key, HeaderOf(section'), key');
  }

  method GetRawValue(read: Reader, lines: seq<string>, section: string, key: string) returns (r: Option<string>)
    ensures r == Get(read, lines, section, key)
  {
    var header := HeaderOf(section);
    var inSection := false;
    ghost var m := Mapped(read, lines);
    for index := 0 to |lines|
      invariant Read(m, header, key, false) == Read(m[index..], header, key, inSection)
    {
      assert m[index..][1..] == m[index + 1..];
      var line := read(lines[index]);
      if line.Header? {
        inSection := line.text == header;
      } else if inSection && line.Pair? && line.key == key {
        return Some(line.value);
      }
    }
    return None;
  }

  /** The lines of a configuration file in memory. */
  class ConfigLines {
    const read: Reader
    var lines: seq<string>

    constructor (read: Reader, lines: seq<string>)
      ensures this.read == read && this.lines == lines
    {
      this.read, this.lines := read, lines;
    }

    method SetSectionValue(section: string, key: string, assignment: string)
      modifies this`lines
      ensures lines == SetLine(read, old(lines), section, key, assignment)
    {
      SetUnder(HeaderOf(section), key, assignment);
    }

    method SetUnder(header: string, key: string, assignment: string)
      modifies this`lines
      ensures lines == Edited(old(lines), PlaceOf(Mapped(read, old(lines)), header, key), header, assignment, "",
                              Gap(old(lines)))
    {
      var place := FindPlace(header, key);
      match place
      case Append =>
        if lines != [] && lines[|lines| - 1] != "" {
          lines := lines + [""];
        }
        lines := lines + [header];
        lines := lines + [assignment];
      case Replace(at) =>
        lines := lines[at := assignment];
        assert lines == old(lines)[..at] + [assignment] + old(lines)[at + 1..];
      case Insert(at) =>
        lines := lines[..at] + [assignment] + lines[at..];
    }

    /** The line to replace, or where to insert one: in the first such section, after
        its last line that is not blank. */
    method FindPlace(header: string, key: string) returns (place: Place)
      ensures place == PlaceOf(Mapped(read, lines), header, key)
    {
      var start, end := FindSection(header);
      if start < 0 {
        return Append;
      }
      var at := FindKey(key, start + 1, end);
      if at < end {
        return Replace(at);
      }
      var insertAt := FindFoot(start, end);
      return Insert(insertAt);
    }

    method FindKey(key: string, from: nat, end: nat) returns (at: nat)
      requires from <= end <= |lines|
      ensures at == First(Mapped(read, lines), from, end, Key(key))
    {
      ghost var m := Mapped(read, lines);
      for index := from to end
        invariant First(m, from, end, Key(key)) == First(m, index, end, Key(key))
      {
        var line := read(lines[index]);
        if line.Pair? && line.key == key {
          return index;
        }
      }
      return end;
    }

    method FindFoot(start: nat, end: nat) returns (insertAt: nat)
      requires start < end <= |lines|
      ensures insertAt == Foot(Mapped(read, lines), start, end)
    {
      ghost var m := Mapped(read, lines);
      insertAt := end;
      while insertAt > start + 1 && read(lines[insertAt - 1]).Blank?
        invariant start < insertAt <= end
        invariant Foot(m, start, end) == Foot(m, start, insertAt)
      {
        insertAt := insertAt - 1;
      }
    }

    /** The header line of the first such section, or -1, and the line after the section. */
    method FindSection(header: string) returns (start: int, end: nat)
      ensures -1 <= start < |lines|
      ensures start < 0 <==> First(Mapped(read, lines), 0, |lines|, Section(header)) == |lines|
      ensures start >= 0 ==>
        && start == First(Mapped(read, lines), 0, |lines|, Section(header))
        && end == First(Mapped(read, lines), start + 1, |lines|, AnySection)
    {
      ghost var m := Mapped(read, lines);
      start, end := -1, |lines|;
      for index := 0 to |lines|
        invariant -1 <= start < index
        invariant start < 0 ==> First(m, 0, |lines|, Section(header)) == First(m, index, |lines|, Section(header))
        invariant start >= 0 ==>
          && start == First(m, 0, |lines|, Section(header))
          && First(m, start + 1, |lines|, AnySection) == First(m, index, |lines|, AnySection)
      {
        var line := read(lines[index]);
        if line.Header? {
          if start >= 0 {
            end := index;
            return;
          }
          if line.text == header {
            start := index;
          }
        }
      }
    }

    /** Removes the key from the paths unless it names what the caller does not own. */
    method RemovePathIfOwned(key: string, owned: string -> bool) returns (changed: bool)
      modifies this`lines
      ensures changed <==> exists raw :: Get(read, old(lines), "paths", key) == Some(raw)
                                         && Unquoted(raw).Some? && owned(Unquoted(raw).value)
      ensures lines == if changed then RemoveLine(read, old(lines), "paths", key) else old(lines)
    {
      var inPaths := false;
      ghost var m, header := Mapped(read, lines), HeaderOf("paths");
      for index := 0 to |lines|
        invariant lines == old(lines)
        invariant Read(m, header, key, false) == Read(m[index..], header, key, inPaths)
        invariant Position(m, header, key, false) == index + Position(m[index..], header, key, inPaths)
      {
        assert m[index..][1..] == m[index + 1..];
        var line := read(lines[index]);
        if line.Header? {
          inPaths := line.text == "[paths]";
        } else if inPaths && line.Pair? && line.key == key {
          assert Get(read, lines, "paths", key) == Some(line.value);
          var configured := TryUnquote(line.value);
          if configured.None? || !owned(configured.value) {
            return false;
          }
          lines := lines[..index] + lines[index + 1..];
          return true;
        }
      }
      return false;
    }
  }
}
