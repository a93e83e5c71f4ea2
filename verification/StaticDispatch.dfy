/** The generated table of guest entry points: a segment of pages for each high byte of
    an address, and for each 4 KiB page a range of entries searched by bisection. */
module StaticDispatch {
  import opened Arithmetic
  import opened Primitives
  import opened Wrappers

  const SEGMENTS: nat := 256
  const SEGMENT_SIZE: nat := 0x100_0000
  const PAGE_SIZE: nat := 0x1000
  const PAGES_PER_SEGMENT: nat := 0x1000

  datatype Record = Record(address: Word, entry: nat)
  datatype Page = Page(firstEntry: nat, entryCount: nat)
  /** The populated pages of a segment, if it has any. */
  datatype Segment = Segment(pages: Option<seq<Page>>, firstPage: nat)
  datatype Table = Table(segments: seq<Segment>, entries: seq<Record>)

  predicate InShape(table: Table) {
    |table.segments| == SEGMENTS
  }

  function SegmentOf(address: Word): (s: nat)
    ensures s < SEGMENTS
  {
    QuotientBelow(address, SEGMENTS, SEGMENT_SIZE);
    address / SEGMENT_SIZE
  }

  function PageOf(address: Word): nat {
    (address / PAGE_SIZE) % PAGES_PER_SEGMENT
  }

  /** The top eight bits of an address are its segment, the next twelve its page. */
  lemma PartsOfAddress(h: nat, p: nat, o: nat)
    requires h < 0x100 && p < 0x1000 && o < 0x1000
    ensures var address := h * 0x100_0000 + p * 0x1000 + o;
      address < WORD && SegmentOf(address) == h && PageOf(address) == p
  {
    var address := h * 0x100_0000 + p * 0x1000 + o;
    UniqueQuotient(address, h, p * 0x1000 + o, SEGMENT_SIZE);
    UniqueQuotient(address, h * 0x1000 + p, o, PAGE_SIZE);
    UniqueQuotient(h * 0x1000 + p, h, p, PAGES_PER_SEGMENT);
  }

  lemma AddressInParts(address: Word) returns (h: nat, p: nat, o: nat)
    ensures h < 0x100 && p < 0x1000 && o < 0x1000 && address == h * 0x100_0000 + p * 0x1000 + o
  {
    h, p, o := address / 0x100_0000, address % 0x100_0000 / 0x1000, address % 0x1000;
    QuotientBounds(address, 0x100_0000);
    QuotientBounds(address, 0x1000);
    QuotientBounds(address % 0x100_0000, 0x1000);
    QuotientBelow(address, 0x100, 0x100_0000);
    QuotientBelow(address % 0x100_0000, 0x1000, 0x1000);
    UniqueQuotient(address, h * 0x1000 + p, address % 0x100_0000 % 0x1000, 0x1000);
  }

  /** The entries that may hold the address; none when its page is missing or reaches
      beyond the table. */
  function RangeOf(table: Table, address: Word): (r: (nat, nat))
    requires InShape(table)
    ensures r.0 <= r.1 <= |table.entries|
  {
    var segment := table.segments[SegmentOf(address)];
    if segment.pages.None? || PageOf(address) < segment.firstPage
       || PageOf(address) - segment.firstPage >= |segment.pages.value| then (0, 0)
    else
      var page := segment.pages.value[PageOf(address) - segment.firstPage];
      if page.firstEntry + page.entryCount > |table.entries| then (0, 0)
      else (page.firstEntry, page.firstEntry + page.entryCount)
  }

  predicate Sorted(entries: seq<Record>, lo: nat, hi: nat)
    requires lo <= hi <= |entries|
  {
    forall i, j :: lo <= i < j < hi ==> entries[i].address <= entries[j].address
  }

  predicate PageSorted(entries: seq<Record>, page: Page) {
    page.firstEntry + page.entryCount <= |entries| ==>
      Sorted(entries, page.firstEntry, page.firstEntry + page.entryCount)
  }

  predicate PagesSorted(table: Table) {
    forall s :: 0 <= s < |table.segments| && table.segments[s].pages.Some? ==>
      forall p :: 0 <= p < |table.segments[s].pages.value| ==> PageSorted(table.entries, table.segments[s].pages.value[p])
  }

  /** The first entry in [lo, hi) for the address. */
  function Scan(entries: seq<Record>, lo: nat, hi: nat, address: Word): (r: Option<nat>)
    requires lo <= hi <= |entries|
    ensures r.Some? ==> lo <= r.value < hi && entries[r.value].address == address
    ensures forall i :: lo <= i < (if r.Some? then r.value else hi) ==> entries[i].address != address
    decreases hi - lo
  {
    if lo == hi then None else if entries[lo].address == address then Some(lo) else Scan(entries, lo + 1, hi, address)
  }

  /** The reference: a linear scan of the whole table. */
  function Reference(table: Table, address: Word): Option<nat> {
    Scan(table.entries, 0, |table.entries|, address)
  }

  /** What a table answers: the first entry for the address in its page. */
  function Answer(table: Table, address: Word): Option<nat>
    requires InShape(table)
  {
    Scan(table.entries, RangeOf(table, address).0, RangeOf(table, address).1, address)
  }

  lemma ScanIs(entries: seq<Record>, lo: nat, hi: nat, address: Word, i: nat)
    requires lo <= i < hi <= |entries| && entries[i].address == address
    requires forall k :: lo <= k < i ==> entries[k].address != address
    ensures Scan(entries, lo, hi, address) == Some(i)
  {
  }

  /** Segment h has a page p, and it lies within the entries. */
  predicate HasPage(table: Table, h: nat, p: nat)
    requires InShape(table)
  {
    && h < 0x100 && p < 0x1000
    && table.segments[h].pages.Some?
    && table.segments[h].firstPage <= p < table.segments[h].firstPage + |table.segments[h].pages.value|
    && PageAt(table, h, p).firstEntry + PageAt(table, h, p).entryCount <= |table.entries|
  }

  function PageAt(table: Table, h: nat, p: nat): Page
    requires InShape(table) && h < 0x100 && table.segments[h].pages.Some?
    requires table.segments[h].firstPage <= p < table.segments[h].firstPage + |table.segments[h].pages.value|
  {
    table.segments[h].pages.value[p - table.segments[h].firstPage]
  }

  /** Entry i is one of those of page p of segment h. */
  predicate PageHolds(table: Table, h: nat, p: nat, i: nat)
    requires InShape(table)
  {
    && HasPage(table, h, p)
    && PageAt(table, h, p).firstEntry <= i < PageAt(table, h, p).firstEntry + PageAt(table, h, p).entryCount
  }

  /** The 4 KiB that page p of segment h stands for. */
  predicate Covers(h: nat, p: nat, address: Word) {
    h * 0x100_0000 + p * 0x1000 <= address < h * 0x100_0000 + p * 0x1000 + 0x1000
  }

  /** Entry i is in the page of its own address. */
  ghost predicate InPlace(table: Table, i: nat)
    requires InShape(table) && i < |table.entries|
  {
    exists h, p :: PageHolds(table, h, p, i) && Covers(h, p, table.entries[i].address)
  }

  lemma PageOfCovered(h: nat, p: nat, address: Word)
    requires h < 0x100 && p < 0x1000 && Covers(h, p, address)
    ensures SegmentOf(address) == h && PageOf(address) == p
  {
    PartsOfAddress(h, p, address - h * 0x100_0000 - p * 0x1000);
  }

  /** The range that is searched for an address is that of the page that covers it. */
  lemma RangeIsPage(table: Table, address: Word, i: nat)
    requires InShape(table)
    ensures RangeOf(table, address).0 <= i < RangeOf(table, address).1 <==>
            exists h, p :: PageHolds(table, h, p, i) && Covers(h, p, address)
  {
    var h, p, o := AddressInParts(address);
    PartsOfAddress(h, p, o);
    assert Covers(h, p, address);
    if RangeOf(table, address).0 <= i < RangeOf(table, address).1 {
      assert PageHolds(table, h, p, i);
    }
    if h', p' :| PageHolds(table, h', p', i) && Covers(h', p', address) {
      PageOfCovered(h', p', address);
    }
  }

  /** No earlier entry has the same address. */
  predicate IsFirst(entries: seq<Record>, i: nat)
    requires i < |entries|
  {
    forall k :: 0 <= k < i ==> entries[k].address != entries[i].address
  }

  /** A table as the translator emits it: pages are sorted, and every entry lies in its page. */
  ghost predicate WellFormed(table: Table)
    requires InShape(table)
  {
    PagesSorted(table) && forall i :: 0 <= i < |table.entries| ==> InPlace(table, i)
  }

  /** What is weaker: only the first entry of each address has to lie in its page. */
  ghost predicate FirstsInPlace(table: Table)
    requires InShape(table)
  {
    forall i :: 0 <= i < |table.entries| && IsFirst(table.entries, i) ==> InPlace(table, i)
  }

  /** One address is answered like a linear scan exactly when its first entry, if it
      has one, lies in its page. */
  lemma AnswerAt(table: Table, address: Word)
    requires InShape(table)
    ensures Answer(table, address) == Reference(table, address) <==>
            forall i :: 0 <= i < |table.entries| && table.entries[i].address == address && IsFirst(table.entries, i) ==>
              InPlace(table, i)
  {
    var range, reference := RangeOf(table, address), Reference(table, address);
    if reference.Some? {
      RangeIsPage(table, address, reference.value);
      assert IsFirst(table.entries, reference.value);
      if InPlace(table, reference.value) {
        ScanIs(table.entries, range.0, range.1, address, reference.value);
      }
      forall i | 0 <= i < |table.entries| && table.entries[i].address == address && IsFirst(table.entries, i)
        ensures i == reference.value
      {
        ScanIs(table.entries, 0, |table.entries|, address, i);
      }
    }
  }

  lemma WellFormedAnswer(table: Table, address: Word)
    requires InShape(table)
    ensures PagesSorted(table) ==> Sorted(table.entries, RangeOf(table, address).0, RangeOf(table, address).1)
    ensures WellFormed(table) ==> Answer(table, address) == Reference(table, address)
  {
    AnswerAt(table, address);
  }

  /** The table answers like a linear scan for every address exactly when the first
      entry of each address lies in its page. */
  lemma AnswersLikeScan(table: Table)
    requires InShape(table)
    ensures (forall address: Word :: Answer(table, address) == Reference(table, address)) <==> FirstsInPlace(table)
  {
    forall address: Word
      ensures Answer(table, address) == Reference(table, address) <==>
              forall i :: 0 <= i < |table.entries| && table.entries[i].address == address && IsFirst(table.entries, i) ==>
                InPlace(table, i)
    {
      AnswerAt(table, address);
    }
    if forall address: Word :: Answer(table, address) == Reference(table, address) {
      forall i | 0 <= i < |table.entries| && IsFirst(table.entries, i)
        ensures InPlace(table, i)
      {
        assert Answer(table, table.entries[i].address) == Reference(table, table.entries[i].address);
      }
    }
  }

  /** Bisection of one page: the first entry for the address, if the page is sorted. */
  method Bisect(entries: seq<Record>, first: nat, end: nat, address: Word) returns (r: Option<nat>)
    requires first <= end <= |entries|
    ensures r.Some? ==> first <= r.value < end && entries[r.value].address == address
    ensures Sorted(entries, first, end) ==> r == Scan(entries, first, end, address)
  {
    var lower, upper := first, end;
    while lower < upper
      invariant first <= lower <= upper <= end
      invariant Sorted(entries, first, end) ==> forall i :: first <= i < lower ==> entries[i].address < address
      invariant Sorted(entries, first, end) ==> forall i :: upper <= i < end ==> address <= entries[i].address
    {
      var middle := lower + (upper - lower) / 2;
      if entries[middle].address < address {
        lower := middle + 1;
      } else {
        upper := middle;
      }
    }
    if lower < end && entries[lower].address == address {
      if Sorted(entries, first, end) {
        ScanIs(entries, first, end, address, lower);
      }
      return Some(lower);
    }
    return None;
  }

  lemma EntryOfPageIsFound(table: Table, address: Word)
    requires InShape(table)
    ensures forall h: nat, p: nat, i: nat :: (
      PageHolds(table, h, p, i) && Covers(h, p, address) && table.entries[i].address == address
      && PageSorted(table.entries, PageAt(table, h, p))
      ==> && Sorted(table.entries, RangeOf(table, address).0, RangeOf(table, address).1)
          && RangeOf(table, address).0 <= i < RangeOf(table, address).1
          && Answer(table, address).Some? && Answer(table, address).value <= i)
  {
    forall h: nat, p: nat, i: nat |
      PageHolds(table, h, p, i) && Covers(h, p, address) && table.entries[i].address == address
      && PageSorted(table.entries, PageAt(table, h, p))
      ensures Sorted(table.entries, RangeOf(table, address).0, RangeOf(table, address).1)
      ensures RangeOf(table, address).0 <= i < RangeOf(table, address).1
      ensures Answer(table, address).Some? && Answer(table, address).value <= i
    {
      PageOfCovered(h, p, address);
    }
  }

  /** The search within the page of an address. Whatever the table holds, the entry it
      returns carries the queried address; with sorted pages it is the first such entry of
      the page, and in a well-formed table what a linear scan of the whole table finds. */
  method FindStaticIndirectDispatchEntry(table: Option<Table>, address: Word) returns (r: Option<nat>)
    requires table.Some? ==> InShape(table.value)
    ensures table.None? ==> r == None
    ensures table.Some? && r.Some? ==>
      r.value < |table.value.entries| && table.value.entries[r.value].address == address
    ensures table.Some? && PagesSorted(table.value) ==> r == Answer(table.value, address)
    ensures table.Some? && WellFormed(table.value) ==> r == Reference(table.value, address)
    // An entry in the sorted page of its address is found, or one before it with this address.
    ensures table.Some? ==>
      forall h: nat, p: nat, i: nat :: (
        && PageHolds(table.value, h, p, i) && Covers(h, p, address) && table.value.entries[i].address == address
        && PageSorted(table.value.entries, PageAt(table.value, h, p))
        ==> r.Some? && r.value <= i)
  {
    if table.None? || |table.value.entries| == 0 {
      return None;
    }
    WellFormedAnswer(table.value, address);
    EntryOfPageIsFound(table.value, address);
    var entries := table.value.entries;
    var segment := table.value.segments[SegmentOf(address)];
    var pageNumber := PageOf(address);
    if segment.pages.None? || pageNumber < segment.firstPage {
      return None;
    }
    var relativePage := pageNumber - segment.firstPage;
    if relativePage >= |segment.pages.value| {
      return None;
    }
    var page := segment.pages.value[relativePage];
    var first, count := page.firstEntry, page.entryCount;
    if first > |entries| || count > |entries| - first {
      return None;
    }
    r := Bisect(entries, first, first + count, address);
  }
}
