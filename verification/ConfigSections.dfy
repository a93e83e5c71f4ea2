/** Sections and keys: what one key of one section reads as in a list of lines, and
    what an edit of the list does to every key. */
module ConfigSections {
  import opened Wrappers

  datatype Line = Header(text: string) | Pair(key: string, value: string) | Blank | Other

  // Reading

  /** Whether the text after the line is in the section. */
  function Entered(line: Line, header: string, inside: bool): bool {
    if line.Header? then line.text == header else inside
  }

  function Inside(lines: seq<Line>, header: string, inside: bool): bool
    decreases lines
  {
    if lines == [] then inside else Inside(lines[1..], header, Entered(lines[0], header, inside))
  }

  /** The first value of the key, when `inside` says whether the text before was in the section. */
  function Read(lines: seq<Line>, header: string, key: string, inside: bool): Option<string>
    decreases lines
  {
    if lines == [] then None
    else if inside && lines[0].Pair? && lines[0].key == key then Some(lines[0].value)
    else Read(lines[1..], header, key, Entered(lines[0], header, inside))
  }

  lemma {:induction false} ReadSplit(a: seq<Line>, b: seq<Line>, header: string, key: string, inside: bool)
    ensures Read(a + b, header, key, inside) ==
            if Read(a, header, key, inside).Some? then Read(a, header, key, inside)
            else Read(b, header, key, Inside(a, header, inside))
    ensures Inside(a + b, header, inside) == Inside(b, header, Inside(a, header, inside))
    decreases a
  {
    if a == [] {
      assert a + b == b;
    } else {
      assert (a + b)[1..] == a[1..] + b;
      ReadSplit(a[1..], b, header, key, Entered(a[0], header, inside));
    }
  }

  lemma ReadOne(line: Line, rest: seq<Line>, header: string, key: string, inside: bool)
    ensures Read([line] + rest, header, key, inside) ==
            if inside && line.Pair? && line.key == key then Some(line.value)
            else Read(rest, header, key, Entered(line, header, inside))
    ensures Inside([line], header, inside) == Entered(line, header, inside)
  {
    assert ([line] + rest)[1..] == rest;
  }

  /** Text without any header stays in its section. */
  lemma {:induction false} HeaderlessText(lines: seq<Line>, header: string, key: string, inside: bool)
    requires forall i :: 0 <= i < |lines| ==> !lines[i].Header? && !Matches(lines[i], Key(key))
    ensures Read(lines, header, key, inside) == None && Inside(lines, header, inside) == inside
    decreases lines
  {
    if lines != [] {
      HeaderlessText(lines[1..], header, key, inside);
    }
  }

  /** Text without the header never enters the section. */
  lemma {:induction false} ForeignText(lines: seq<Line>, header: string, key: string)
    requires forall i :: 0 <= i < |lines| ==> lines[i] != Header(header)
    ensures Read(lines, header, key, false) == None && !Inside(lines, header, false)
  {
    if lines != [] {
      ForeignText(lines[1..], header, key);
    }
  }

  /** No text is in two sections. */
  lemma {:induction false} OneSection(lines: seq<Line>, header: string, other: string, here: bool, there: bool)
    requires header != other && !(here && there)
    ensures !(Inside(lines, header, here) && Inside(lines, other, there))
    decreases lines
  {
    if lines != [] {
      OneSection(lines[1..], header, other, Entered(lines[0], header, here), Entered(lines[0], other, there));
    }
  }

  // Where an edit goes

  datatype Seek = Section(header: string) | AnySection | Key(key: string)

  predicate Matches(line: Line, what: Seek) {
    match what
    case Section(header) => line == Header(header)
    case AnySection => line.Header?
    case Key(key) => line.Pair? && line.key == key
  }

  /** The first line of [from, limit) that matches, or the limit. */
  function First(lines: seq<Line>, from: nat, limit: nat, what: Seek): (r: nat)
    requires from <= limit <= |lines|
    ensures from <= r <= limit
    ensures forall i :: from <= i < r ==> !Matches(lines[i], what)
    ensures r < limit ==> Matches(lines[r], what)
    decreases limit - from
  {
    if from == limit || Matches(lines[from], what) then from else First(lines, from + 1, limit, what)
  }

  lemma FirstIs(lines: seq<Line>, from: nat, limit: nat, what: Seek, r: nat)
    requires from <= r <= limit <= |lines|
    requires forall i :: from <= i < r ==> !Matches(lines[i], what)
    requires r < limit ==> Matches(lines[r], what)
    ensures First(lines, from, limit, what) == r
  {
  }

  /** The end of a section without the blank lines before the next header. */
  function Foot(lines: seq<Line>, start: nat, end: nat): (r: nat)
    requires start < end <= |lines|
    ensures start < r <= end
    ensures forall i :: r <= i < end ==> lines[i].Blank?
    ensures r > start + 1 ==> !lines[r - 1].Blank?
  {
    if end > start + 1 && lines[end - 1].Blank? then Foot(lines, start, end - 1) else end
  }

  datatype Place = Replace(at: nat) | Insert(at: nat) | Append

  function PlaceOf(lines: seq<Line>, header: string, key: string): (p: Place)
    ensures p.Replace? ==> p.at < |lines|
    ensures p.Insert? ==> p.at <= |lines|
  {
    var start := First(lines, 0, |lines|, Section(header));
    if start == |lines| then Append else
      var end := First(lines, start + 1, |lines|, AnySection);
      var at := First(lines, start + 1, end, Key(key));
      if at < end then Replace(at) else Insert(Foot(lines, start, end))
  }

  /** The first section with this header begins at line start. */
  predicate SectionBegins(lines: seq<Line>, header: string, start: nat) {
    start < |lines| && lines[start] == Header(header) && forall i :: 0 <= i < start ==> lines[i] != Header(header)
  }

  /** No header stands in (start, end). */
  predicate OneBlock(lines: seq<Line>, start: nat, end: nat) {
    end <= |lines| && forall i :: start < i < end ==> !lines[i].Header?
  }

  /** Where an edit goes: to the first line of the key in the first section with the header;
      else behind the last line of that section which is not blank; else to the end. */
  lemma PlaceExactly(lines: seq<Line>, header: string, key: string)
    ensures
      match PlaceOf(lines, header, key)
      case Append => Header(header) !in lines
      case Replace(at) =>
        exists start: nat :: SectionBegins(lines, header, start) && start < at && OneBlock(lines, start, at + 1)
          && Matches(lines[at], Key(key)) && forall i :: start < i < at ==> !Matches(lines[i], Key(key))
      case Insert(at) =>
        exists start: nat, end: nat :: SectionBegins(lines, header, start) && start < at <= end && OneBlock(lines, start, end)
          && (end < |lines| ==> lines[end].Header?)
          && (forall i :: start < i < end ==> !Matches(lines[i], Key(key)))
          && (forall i :: at <= i < end ==> lines[i].Blank?)
          && (at == start + 1 || !lines[at - 1].Blank?)
  {
    var start := First(lines, 0, |lines|, Section(header));
    assert forall i :: 0 <= i < start ==> !Matches(lines[i], Section(header));
    if start < |lines| {
      var end := First(lines, start + 1, |lines|, AnySection);
      assert SectionBegins(lines, header, start);
      assert forall i :: start + 1 <= i < end ==> !Matches(lines[i], AnySection);
      assert OneBlock(lines, start, end);
    }
  }

  /** The list after an edit; `gap` asks for a blank line before an appended section. */
  function Edited<T>(lines: seq<T>, place: Place, header: T, assignment: T, blank: T, gap: bool): seq<T>
    requires place.Replace? ==> place.at < |lines|
    requires place.Insert? ==> place.at <= |lines|
  {
    match place
    case Replace(at) => lines[..at] + [assignment] + lines[at + 1..]
    case Insert(at) => lines[..at] + [assignment] + lines[at..]
    case Append => (if gap then lines + [blank] else lines) + [header, assignment]
  }

  function Set(lines: seq<Line>, header: string, key: string, value: string, gap: bool): seq<Line> {
    Edited(lines, PlaceOf(lines, header, key), Header(header), Pair(key, value), Blank, gap)
  }

  /** Before the place of the edit the key has no value yet, and the place is in the section. */
  lemma PlaceInSection(lines: seq<Line>, header: string, key: string)
    requires !PlaceOf(lines, header, key).Append?
    ensures var at := PlaceOf(lines, header, key).at;
      && Read(lines[..at], header, key, false) == None
      && Inside(lines[..at], header, false)
  {
    var at := PlaceOf(lines, header, key).at;
    var start := First(lines, 0, |lines|, Section(header));
    assert forall i :: start < i < at ==> !Matches(lines[i], AnySection) && !Matches(lines[i], Key(key));
    BeforePlace(lines, header, key, start, at);
  }

  lemma BeforePlace(lines: seq<Line>, header: string, key: string, start: nat, at: nat)
    requires start < at <= |lines| && Matches(lines[start], Section(header))
    requires forall i :: 0 <= i < start ==> !Matches(lines[i], Section(header))
    requires forall i :: start < i < at ==> !Matches(lines[i], AnySection) && !Matches(lines[i], Key(key))
    ensures Read(lines[..at], header, key, false) == None && Inside(lines[..at], header, false)
  {
    var before, head, body := lines[..start], lines[start], lines[start + 1..at];
    ForeignText(before, header, key);
    assert forall i :: 0 <= i < |body| ==> body[i] == lines[start + 1 + i];
    HeaderlessText(body, header, key, true);
    assert lines[..at] == before + ([head] + body);
    ReadSplit(before, [head] + body, header, key, false);
    ReadOne(head, body, header, key, false);
    ReadSplit([head], body, header, key, false);
  }

  // What an edit means

  /** An assignment in the section is the value of its key when none came before. */
  lemma AssignedIsRead(a: seq<Line>, b: seq<Line>, header: string, key: string, value: string)
    requires Read(a, header, key, false) == None && Inside(a, header, false)
    ensures Read(a + [Pair(key, value)] + b, header, key, false) == Some(value)
  {
    assert a + [Pair(key, value)] + b == a + ([Pair(key, value)] + b);
    ReadSplit(a, [Pair(key, value)] + b, header, key, false);
    ReadOne(Pair(key, value), b, header, key, true);
  }

  /** A line of the key in the section is nothing to any other key. */
  lemma LineOfKeyIsSkipped(a: seq<Line>, line: Line, b: seq<Line>, header: string, key: string,
                           header': string, key': string)
    requires Matches(line, Key(key)) && Inside(a, header, false) && (header', key') != (header, key)
    ensures Read(a + [line] + b, header', key', false) == Read(a + b, header', key', false)
  {
    assert a + [line] + b == a + ([line] + b);
    ReadSplit(a, [line] + b, header', key', false);
    ReadSplit(a, b, header', key', false);
    ReadOne(line, b, header', key', Inside(a, header', false));
    if header' != header {
      OneSection(a, header, header', false, false);
    }
  }

  lemma SetAppended(lines: seq<Line>, header: string, key: string, value: string, gap: bool, header': string, key': string)
    requires PlaceOf(lines, header, key).Append?
    ensures Read(Set(lines, header, key, value, gap), header', key', false) ==
            if (header', key') == (header, key) then Some(value) else Read(lines, header', key', false)
  {
    var end, line := [Header(header), Pair(key, value)], Pair(key, value);
    assert forall i :: 0 <= i < |lines| ==> !Matches(lines[i], Section(header));
    ForeignText(lines, header, key);
    assert [Header(header)] + [line] == end && [line] + [] == [line];
    ReadOne(Header(header), [line], header', key', Inside(lines, header', false));
    ReadOne(line, [], header', key', header == header');
    ReadSplit(lines, end, header', key', false);
    ReadOne(Blank, end, header', key', Inside(lines, header', false));
    ReadSplit(lines, [Blank] + end, header', key', false);
    assert (lines + [Blank]) + end == lines + ([Blank] + end);
  }

  lemma SetInPlace(lines: seq<Line>, header: string, key: string, value: string, gap: bool, header': string, key': string)
    requires !PlaceOf(lines, header, key).Append?
    ensures Read(Set(lines, header, key, value, gap), header', key', false) ==
            if (header', key') == (header, key) then Some(value) else Read(lines, header', key', false)
  {
    var place := PlaceOf(lines, header, key);
    PlaceInSection(lines, header, key);
    var a, b := lines[..place.at], if place.Replace? then lines[place.at + 1..] else lines[place.at..];
    AssignedIsRead(a, b, header, key, value);
    if (header', key') != (header, key) {
      LineOfKeyIsSkipped(a, Pair(key, value), b, header, key, header', key');
      if place.Replace? {
        LineOfKeyIsSkipped(a, lines[place.at], b, header, key, header', key');
        assert lines == a + [lines[place.at]] + b;
      } else {
        assert lines == a + b;
      }
    }
  }

  /** Setting a value makes exactly one key read differently. */
  lemma SetThenRead(lines: seq<Line>, header: string, key: string, value: string, gap: bool, header': string, key': string)
    ensures Read(Set(lines, header, key, value, gap), header', key', false) ==
            if (header', key') == (header, key) then Some(value) else Read(lines, header', key', false)
  {
    if PlaceOf(lines, header, key).Append? {
      SetAppended(lines, header, key, value, gap, header', key');
    } else {
      SetInPlace(lines, header, key, value, gap, header', key');
    }
  }

  // The place of a second edit

  lemma PlaceAfterReplace(lines: seq<Line>, header: string, key: string, value: string, gap: bool)
    requires PlaceOf(lines, header, key).Replace?
    ensures PlaceOf(Set(lines, header, key, value, gap), header, key) == PlaceOf(lines, header, key)
  {
    var at, after := PlaceOf(lines, header, key).at, Set(lines, header, key, value, gap);
    var start := First(lines, 0, |lines|, Section(header));
    var end := First(lines, start + 1, |lines|, AnySection);
    assert after == lines[at := Pair(key, value)];
    FirstIs(after, 0, |after|, Section(header), start);
    FirstIs(after, start + 1, |after|, AnySection, end);
    FirstIs(after, start + 1, end, Key(key), at);
  }

  lemma PlaceAfterInsert(lines: seq<Line>, header: string, key: string, value: string, gap: bool)
    requires PlaceOf(lines, header, key).Insert?
    ensures PlaceOf(Set(lines, header, key, value, gap), header, key) == Replace(PlaceOf(lines, header, key).at)
  {
    var at, after := PlaceOf(lines, header, key).at, Set(lines, header, key, value, gap);
    var start := First(lines, 0, |lines|, Section(header));
    var end := First(lines, start + 1, |lines|, AnySection);
    InsertedLine(lines, after, at, Pair(key, value));
    FirstIs(after, 0, |after|, Section(header), start);
    NoHeaderInserted(lines, after, start, end, at, Pair(key, value));
    FirstIs(after, start + 1, |after|, AnySection, end + 1);
    KeyInserted(lines, after, start, end, at, key, value);
  }

  lemma KeyInserted(lines: seq<Line>, after: seq<Line>, start: nat, end: nat, at: nat, key: string, value: string)
    requires start < at <= end <= |lines| && after == lines[..at] + [Pair(key, value)] + lines[at..]
    requires forall i :: start < i < end ==> !Matches(lines[i], Key(key))
    ensures First(after, start + 1, end + 1, Key(key)) == at
  {
    InsertedLine(lines, after, at, Pair(key, value));
    FirstIs(after, start + 1, end + 1, Key(key), at);
  }

  lemma NoHeaderInserted(lines: seq<Line>, after: seq<Line>, start: nat, end: nat, at: nat, line: Line)
    requires start < at <= end <= |lines| && after == lines[..at] + [line] + lines[at..] && !line.Header?
    requires forall i :: start < i < end ==> !Matches(lines[i], AnySection)
    requires end < |lines| ==> Matches(lines[end], AnySection)
    ensures forall i :: start < i <= end ==> !Matches(after[i], AnySection)
    ensures end < |lines| ==> Matches(after[end + 1], AnySection)
  {
    InsertedLine(lines, after, at, line);
  }

  lemma InsertedLine(lines: seq<Line>, after: seq<Line>, at: nat, line: Line)
    requires at <= |lines| && after == lines[..at] + [line] + lines[at..]
    ensures |after| == |lines| + 1
    ensures forall i :: 0 <= i < |after| ==> after[i] == if i < at then lines[i] else if i == at then line else lines[i - 1]
  {
  }

  lemma PlaceAfterAppend(lines: seq<Line>, header: string, key: string, value: string, gap: bool)
    requires PlaceOf(lines, header, key).Append?
    ensures var after := Set(lines, header, key, value, gap);
      PlaceOf(after, header, key) == Replace(|after| - 1)
  {
    var after := Set(lines, header, key, value, gap);
    assert forall i :: 0 <= i < |lines| ==> after[i] == lines[i] && !Matches(lines[i], Section(header));
    FirstIs(after, 0, |after|, Section(header), |after| - 2);
    FirstIs(after, |after| - 1, |after|, AnySection, |after|);
    FirstIs(after, |after| - 1, |after|, Key(key), |after| - 1);
  }

  /** A second setting finds the line that the first one wrote. */
  lemma PlaceAfterSet(lines: seq<Line>, header: string, key: string, value: string, gap: bool)
    ensures var place, after := PlaceOf(lines, header, key), Set(lines, header, key, value, gap);
      PlaceOf(after, header, key) == Replace(if place.Append? then |after| - 1 else place.at)
  {
    match PlaceOf(lines, header, key)
    case Replace(_) => PlaceAfterReplace(lines, header, key, value, gap);
    case Insert(_) => PlaceAfterInsert(lines, header, key, value, gap);
    case Append => PlaceAfterAppend(lines, header, key, value, gap);
  }

  lemma EditedTwice<T>(lines: seq<T>, place: Place, header: T, first: T, second: T, blank: T, gap: bool)
    requires place.Replace? ==> place.at < |lines|
    requires place.Insert? ==> place.at <= |lines|
    ensures var once := Edited(lines, place, header, first, blank, gap);
      var at := if place.Append? then |once| - 1 else place.at;
      at < |once| && Edited(once, Replace(at), header, second, blank, gap) == Edited(lines, place, header, second, blank, gap)
  {
  }

  // Removing

  /** The line that Read answers from, or the number of lines. */
  function Position(lines: seq<Line>, header: string, key: string, inside: bool): (r: nat)
    ensures r <= |lines|
    ensures r < |lines| <==> Read(lines, header, key, inside).Some?
    ensures r < |lines| ==> lines[r] == Pair(key, Read(lines, header, key, inside).value)
    decreases lines
  {
    if lines == [] || (inside && lines[0].Pair? && lines[0].key == key) then 0
    else 1 + Position(lines[1..], header, key, Entered(lines[0], header, inside))
  }

  lemma {:induction false} PositionInSection(lines: seq<Line>, header: string, key: string, inside: bool)
    requires Read(lines, header, key, inside).Some?
    ensures var at := Position(lines, header, key, inside);
      Read(lines[..at], header, key, inside) == None && Inside(lines[..at], header, inside)
    decreases lines
  {
    var at := Position(lines, header, key, inside);
    if at > 0 {
      PositionInSection(lines[1..], header, key, Entered(lines[0], header, inside));
      assert lines[..at][1..] == lines[1..][..at - 1];
    }
  }

  function Occurrences(lines: seq<Line>, header: string, key: string, inside: bool): nat
    decreases lines
  {
    if lines == [] then 0
    else
      (if inside && lines[0].Pair? && lines[0].key == key then 1 else 0)
      + Occurrences(lines[1..], header, key, Entered(lines[0], header, inside))
  }

  lemma {:induction false} NoOccurrenceNoValue(lines: seq<Line>, header: string, key: string, inside: bool)
    ensures Occurrences(lines, header, key, inside) == 0 <==> Read(lines, header, key, inside) == None
    decreases lines
  {
    if lines != [] {
      NoOccurrenceNoValue(lines[1..], header, key, Entered(lines[0], header, inside));
    }
  }

  lemma {:induction false} OccurrencesSplit(a: seq<Line>, b: seq<Line>, header: string, key: string, inside: bool)
    ensures Occurrences(a + b, header, key, inside) ==
            Occurrences(a, header, key, inside) + Occurrences(b, header, key, Inside(a, header, inside))
    decreases a
  {
    if a == [] {
      assert a + b == b;
    } else {
      assert (a + b)[1..] == a[1..] + b;
      OccurrencesSplit(a[1..], b, header, key, Entered(a[0], header, inside));
    }
  }

  lemma OccurrencesAround(a: seq<Line>, line: Line, b: seq<Line>, header: string, key: string)
    requires Matches(line, Key(key)) && Inside(a, header, false)
    ensures Occurrences(a + [line] + b, header, key, false) == Occurrences(a + b, header, key, false) + 1
  {
    assert a + [line] + b == a + ([line] + b);
    OccurrencesSplit(a, [line] + b, header, key, false);
    OccurrencesSplit(a, b, header, key, false);
    assert ([line] + b)[1..] == b;
  }

  function Removed<T>(lines: seq<T>, at: nat): seq<T>
    requires at < |lines|
  {
    lines[..at] + lines[at + 1..]
  }

  /** Removing the line a key is read from changes no other key, and takes away the
      key itself exactly when the file named it once. */
  lemma RemoveThenRead(lines: seq<Line>, header: string, key: string, header': string, key': string)
    requires Read(lines, header, key, false).Some?
    ensures var after := Removed(lines, Position(lines, header, key, false));
      && ((header', key') != (header, key) ==> Read(after, header', key', false) == Read(lines, header', key', false))
      && (Read(after, header, key, false) == None <==> Occurrences(lines, header, key, false) == 1)
  {
    var at := Position(lines, header, key, false);
    var a, line, b := lines[..at], lines[at], lines[at + 1..];
    assert lines == a + [line] + b;
    PositionInSection(lines, header, key, false);
    if (header', key') != (header, key) {
      LineOfKeyIsSkipped(a, line, b, header, key, header', key');
    }
    OccurrencesAround(a, line, b, header, key);
    NoOccurrenceNoValue(a + b, header, key, false);
  }
}
