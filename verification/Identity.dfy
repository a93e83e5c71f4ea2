/** The texts behind the identities of a toolkit and of the compile inputs. A digest is
    never looked into: two identities are as different as the texts they digest. */
module Identity {
  import opened Primitives
  import opened Wrappers

  // Length-prefixed fields

  const INT_LIMIT: nat := 0x8000_0000

  /** A length in four bytes, the least significant first. */
  function LittleEndian(n: nat): (b: seq<Byte>)
    requires n < INT_LIMIT
    ensures |b| == 4
  {
    [n % 256, n / 0x100 % 256, n / 0x1_0000 % 256, n / 0x100_0000 % 256]
  }

  function LittleEndianValue(b: seq<Byte>): nat
    requires |b| == 4
  {
    var b0: nat, b1: nat, b2: nat, b3: nat := b[0], b[1], b[2], b[3];
    b0 + 0x100 * b1 + 0x1_0000 * b2 + 0x100_0000 * b3
  }

  lemma LittleEndianRoundTrip(n: nat)
    requires n < INT_LIMIT
    ensures LittleEndianValue(LittleEndian(n)) == n
  {
    assert n / 0x1_0000 == n / 0x100 / 0x100 && n / 0x100_0000 == n / 0x1_0000 / 0x100;
  }

  predicate Fields(fields: seq<seq<Byte>>) {
    forall i :: 0 <= i < |fields| ==> |fields[i]| < INT_LIMIT
  }

  function Encoded(fields: seq<seq<Byte>>): seq<Byte>
    requires Fields(fields)
  {
    if fields == [] then [] else LittleEndian(|fields[0]|) + fields[0] + Encoded(fields[1..])
  }

  /** Reads the fields back from what was hashed. */
  function Decoded(bytes: seq<Byte>): Option<seq<seq<Byte>>>
    decreases |bytes|
  {
    if bytes == [] then Some([])
    else if |bytes| < 4 then None
    else
      var length := LittleEndianValue(bytes[..4]);
      if |bytes| - 4 < length then None
      else
        var rest := Decoded(bytes[4 + length..]);
        if rest.None? then None else Some([bytes[4..4 + length]] + rest.value)
  }

  lemma {:induction false} FieldsRoundTrip(fields: seq<seq<Byte>>)
    requires Fields(fields)
    ensures Decoded(Encoded(fields)) == Some(fields)
  {
    if fields != [] {
      var first, rest := fields[0], Encoded(fields[1..]);
      var bytes := LittleEndian(|first|) + first + rest;
      LittleEndianRoundTrip(|first|);
      assert bytes[..4] == LittleEndian(|first|);
      assert bytes[4..4 + |first|] == first;
      assert bytes[4 + |first|..] == rest;
      FieldsRoundTrip(fields[1..]);
      assert Encoded(fields) == bytes && [first] + fields[1..] == fields;
    }
  }

  /** Different field sequences are never hashed from the same bytes. */
  lemma FieldsInjective(a: seq<seq<Byte>>, b: seq<seq<Byte>>)
    requires Fields(a) && Fields(b) && Encoded(a) == Encoded(b)
    ensures a == b
  {
    FieldsRoundTrip(a);
    FieldsRoundTrip(b);
  }

  // Compile inputs

  datatype Kind = Absent | Directory(link: bool) | File(link: bool)
  datatype CompileInputs = CompileInputs(codePul: string, root: Kind, files: Kind)

  function KindName(k: Kind): string {
    match k
    case Absent => "absent"
    case Directory(link) => if link then "directory+link" else "directory"
    case File(link) => if link then "file+link" else "file"
  }

  const FORMAT_VERSION := "mkwc-retro-compile-inputs-v3"

  function InputFields(c: CompileInputs): seq<string> {
    [FORMAT_VERSION, "file:Binaries/Code.pul", c.codePul,
     "topology:mod-root", KindName(c.root), "topology:files", KindName(c.files)]
  }

  type Utf8 = string -> seq<Byte>

  ghost predicate Injective(utf8: Utf8) {
    forall a, b :: utf8(a) == utf8(b) ==> a == b
  }

  lemma KindNamesDiffer(a: Kind, b: Kind)
    requires KindName(a) == KindName(b)
    ensures a == b
  {
    assert |"absent"| == 6 && |"directory+link"| == 14 && |"directory"| == 9 && |"file+link"| == 9 && |"file"| == 4;
    assert "directory"[0] != "file+link"[0];
  }

  /** The same stream comes only from the same code file and the same kinds of entries. */
  lemma CompileInputsInjective(utf8: Utf8, a: CompileInputs, b: CompileInputs)
    requires Injective(utf8)
    requires Fields(Mapped(utf8, InputFields(a))) && Fields(Mapped(utf8, InputFields(b)))
    requires Encoded(Mapped(utf8, InputFields(a))) == Encoded(Mapped(utf8, InputFields(b)))
    ensures a == b
  {
    var fa, fb := Mapped(utf8, InputFields(a)), Mapped(utf8, InputFields(b));
    FieldsInjective(fa, fb);
    assert fa[2] == fb[2] && fa[4] == fb[4] && fa[6] == fb[6];
    assert utf8(InputFields(a)[2]) == utf8(InputFields(b)[2]);
    assert utf8(InputFields(a)[4]) == utf8(InputFields(b)[4]);
    assert utf8(InputFields(a)[6]) == utf8(InputFields(b)[6]);
    KindNamesDiffer(a.root, b.root);
    KindNamesDiffer(a.files, b.files);
  }

  // Entry lists

  type Pair = (string, string)

  /** Ordinal order of names. */
  predicate Less(a: string, b: string)
    decreases a
  {
    if b == "" then false
    else if a == "" then true
    else a[0] < b[0] || (a[0] == b[0] && Less(a[1..], b[1..]))
  }

  lemma {:induction false} LessIsOrder(a: string, b: string, c: string)
    ensures Less(a, b) && Less(b, c) ==> Less(a, c)
    ensures !(Less(a, b) && Less(b, a))
    ensures a == b || Less(a, b) || Less(b, a)
    ensures !Less(a, a)
    decreases a
  {
    if a != "" {
      if b != "" {
        LessIsOrder(a[1..], b[1..], if c == "" then "" else c[1..]);
        assert a == [a[0]] + a[1..] && b == [b[0]] + b[1..];
      } else {
        LessIsOrder(a[1..], "", "");
      }
    }
  }

  /** Ordinal: at the first character in which they differ the lesser is first, and a name
      comes before every name that it begins. */
  lemma {:induction false} LessExactly(a: string, b: string, k: nat)
    requires k <= |a| && k <= |b| && a[..k] == b[..k]
    ensures k < |a| && k < |b| && a[k] != b[k] ==> (Less(a, b) <==> a[k] < b[k])
    ensures k == |a| ==> (Less(a, b) <==> k < |b|)
    ensures k == |b| ==> !Less(a, b)
    decreases a
  {
    if k > 0 {
      assert a[0] == a[..k][0] == b[..k][0] == b[0];
      assert a[1..][..k - 1] == a[..k][1..] && b[1..][..k - 1] == b[..k][1..];
      LessExactly(a[1..], b[1..], k - 1);
    }
  }

  predicate Sorted(pairs: seq<Pair>) {
    forall i, j :: 0 <= i < j < |pairs| ==> Less(pairs[i].0, pairs[j].0)
  }

  function Entries(pairs: seq<Pair>): map<string, string> {
    if pairs == [] then map[] else Entries(pairs[1..])[pairs[0].0 := pairs[0].1]
  }

  function Put(pairs: seq<Pair>, name: string, hash: string): seq<Pair> {
    if pairs == [] || Less(name, pairs[0].0) then [(name, hash)] + pairs
    else if name == pairs[0].0 then [(name, hash)] + pairs[1..]
    else [pairs[0]] + Put(pairs[1..], name, hash)
  }

  lemma {:induction false} NamesOf(pairs: seq<Pair>, name: string)
    ensures name in Entries(pairs) <==> exists i :: 0 <= i < |pairs| && pairs[i].0 == name
  {
    if pairs != [] {
      NamesOf(pairs[1..], name);
      if name in Entries(pairs[1..]) {
        var i :| 0 <= i < |pairs| - 1 && pairs[1..][i].0 == name;
        assert pairs[i + 1].0 == name;
      }
      if i :| 0 <= i < |pairs| && pairs[i].0 == name && i > 0 {
        assert pairs[1..][i - 1].0 == name;
      }
    }
  }

  lemma {:induction false} NamesAfterPut(pairs: seq<Pair>, name: string, hash: string, i: nat)
    requires i < |Put(pairs, name, hash)|
    ensures Put(pairs, name, hash)[i].0 == name || exists j :: 0 <= j < |pairs| && pairs[j].0 == Put(pairs, name, hash)[i].0
  {
    var after := Put(pairs, name, hash);
    if pairs == [] || Less(name, pairs[0].0) {
      assert i > 0 ==> after[i] == pairs[i - 1];
    } else if name == pairs[0].0 {
      assert i > 0 ==> after[i] == pairs[i];
    } else if i == 0 {
      assert after[0] == pairs[0];
    } else {
      NamesAfterPut(pairs[1..], name, hash, i - 1);
      assert after[i] == Put(pairs[1..], name, hash)[i - 1];
      if after[i].0 != name {
        var j :| 0 <= j < |pairs| - 1 && pairs[1..][j].0 == after[i].0;
        assert pairs[j + 1].0 == after[i].0;
      }
    }
  }

  lemma {:induction false} PutKeepsSorted(pairs: seq<Pair>, name: string, hash: string)
    requires Sorted(pairs)
    ensures Sorted(Put(pairs, name, hash))
  {
    if pairs == [] {
    } else if Less(name, pairs[0].0) {
      forall j | 0 <= j < |pairs|
        ensures Less(name, pairs[j].0)
      {
        LessIsOrder(name, pairs[0].0, pairs[j].0);
      }
    } else if name != pairs[0].0 {
      var rest := Put(pairs[1..], name, hash);
      PutKeepsSorted(pairs[1..], name, hash);
      LessIsOrder(name, pairs[0].0, name);
      forall j | 0 <= j < |rest|
        ensures Less(pairs[0].0, rest[j].0)
      {
        NamesAfterPut(pairs[1..], name, hash, j);
      }
    }
  }

  lemma {:induction false} EntriesAfterPut(pairs: seq<Pair>, name: string, hash: string)
    ensures Entries(Put(pairs, name, hash)) == Entries(pairs)[name := hash]
  {
    if pairs != [] && !Less(name, pairs[0].0) && name != pairs[0].0 {
      EntriesAfterPut(pairs[1..], name, hash);
    }
  }

  /** Where an entry is put: before the first name that is not less. */
  lemma {:induction false} PutAt(pairs: seq<Pair>, at: nat, name: string, hash: string)
    requires at <= |pairs| && forall i :: 0 <= i < at ==> Less(pairs[i].0, name)
    requires at < |pairs| ==> !Less(pairs[at].0, name)
    ensures Put(pairs, name, hash) == pairs[..at] + [(name, hash)] +
                                      pairs[if at < |pairs| && pairs[at].0 == name then at + 1 else at..]
  {
    if at > 0 {
      LessIsOrder(pairs[0].0, name, "");
      PutAt(pairs[1..], at - 1, name, hash);
      assert pairs[..at] == [pairs[0]] + pairs[1..][..at - 1];
    } else if pairs != [] {
      LessIsOrder(pairs[0].0, name, "");
    }
  }

  /** The first name of a sorted list is before every other. */
  lemma FirstIsLeast(pairs: seq<Pair>, name: string)
    requires pairs != [] && Sorted(pairs) && name in Entries(pairs)
    ensures name == pairs[0].0 || Less(pairs[0].0, name)
  {
    NamesOf(pairs, name);
  }

  lemma RestOfSorted(pairs: seq<Pair>)
    requires pairs != [] && Sorted(pairs)
    ensures Sorted(pairs[1..]) && Entries(pairs[1..]) == Entries(pairs) - {pairs[0].0}
  {
    NamesOf(pairs[1..], pairs[0].0);
    LessIsOrder(pairs[0].0, pairs[0].0, "");
  }

  /** Sorted lists with the same entries are the same list. */
  lemma {:induction false} SortedIsUnique(a: seq<Pair>, b: seq<Pair>)
    requires Sorted(a) && Sorted(b) && Entries(a) == Entries(b)
    ensures a == b
  {
    assert a != [] ==> a[0].0 in Entries(a);
    assert b != [] ==> b[0].0 in Entries(b);
    if a != [] && b != [] {
      FirstIsLeast(a, b[0].0);
      FirstIsLeast(b, a[0].0);
      LessIsOrder(a[0].0, b[0].0, a[0].0);
      RestOfSorted(a);
      RestOfSorted(b);
      SortedIsUnique(a[1..], b[1..]);
      assert Entries(a)[a[0].0] == Entries(b)[b[0].0];
    }
  }

  // Identity texts

  function LineOf(pair: Pair): string {
    pair.0 + "|" + pair.1
  }

  function Lines(pairs: seq<Pair>): string {
    if pairs == [] then "" else LineOf(pairs[0]) + "\n" + Lines(pairs[1..])
  }

  function Text(version: string, pairs: seq<Pair>): string {
    version + "\n" + Lines(pairs)
  }

  /** Names and hashes that keep a line apart from the next and a name from its hash. */
  predicate Distinguishable(pairs: seq<Pair>) {
    forall i :: 0 <= i < |pairs| ==> '\n' !in pairs[i].0 && '\n' !in pairs[i].1 && '|' !in pairs[i].1
  }

  lemma CutAtFirst(a: string, b: string, c: char, x: string, y: string)
    requires c !in a && c !in b && a + [c] + x == b + [c] + y
    ensures a == b && x == y
  {
    var s, t := a + [c] + x, b + [c] + y;
    assert s[|a|] == c && t[|b|] == c;
    assert s[..|a|] == a && t[..|b|] == b;
    assert s[|a| + 1..] == x && t[|b| + 1..] == y;
  }

  lemma CutAtLast(a: string, b: string, c: char, x: string, y: string)
    requires c !in x && c !in y && a + [c] + x == b + [c] + y
    ensures a == b && x == y
  {
    var s, t := a + [c] + x, b + [c] + y;
    assert s[|a|] == c && t[|b|] == c;
    assert s[..|a|] == a && t[..|b|] == b;
    assert s[|a| + 1..] == x && t[|b| + 1..] == y;
  }

  lemma LineIsOneLine(pair: Pair)
    requires '\n' !in pair.0 && '\n' !in pair.1
    ensures '\n' !in LineOf(pair)
  {
    assert '\n' !in "|";
  }

  lemma {:induction false} LinesInjective(a: seq<Pair>, b: seq<Pair>)
    requires Distinguishable(a) && Distinguishable(b) && Lines(a) == Lines(b)
    ensures a == b
  {
    if a != [] && b != [] {
      LineIsOneLine(a[0]);
      LineIsOneLine(b[0]);
      CutAtFirst(LineOf(a[0]), LineOf(b[0]), '\n', Lines(a[1..]), Lines(b[1..]));
      CutAtLast(a[0].0, b[0].0, '|', a[0].1, b[0].1);
      LinesInjective(a[1..], b[1..]);
    }
  }

  /** Different versions or entries never give the same text. */
  lemma TextInjective(v: string, a: seq<Pair>, w: string, b: seq<Pair>)
    requires '\n' !in v && '\n' !in w && Distinguishable(a) && Distinguishable(b)
    requires Text(v, a) == Text(w, b)
    ensures v == w && a == b
  {
    CutAtFirst(v, w, '\n', Lines(a), Lines(b));
    LinesInjective(a, b);
  }

  /** A hash with a bar in it can stand for part of a name. */
  lemma BarsConfuse()
    ensures var a, b := [("x", "y|z")], [("x|y", "z")];
      a != b && Text("v", a) == Text("v", b)
  {
    assert LineOf(("x", "y|z")) == LineOf(("x|y", "z"));
  }

  /** The entries a subset identity keeps. */
  function Subset(pairs: seq<Pair>, keep: string -> bool): seq<Pair> {
    if pairs == [] then []
    else (if keep(pairs[0].0) then [pairs[0]] else []) + Subset(pairs[1..], keep)
  }

  /** The list a directory walk builds, whatever order the hashing of files ended in. */
  class SortedDictionary {
    var pairs: seq<Pair>

    ghost predicate Valid()
      reads this
    {
      Sorted(pairs)
    }

    constructor ()
      ensures Valid() && Entries(pairs) == map[]
    {
      pairs := [];
    }

    method Add(name: string, hash: string)
      requires Valid()
      modifies this
      ensures Valid() && Entries(pairs) == Entries(old(pairs))[name := hash]
    {
      var at := 0;
      while at < |pairs| && Less(pairs[at].0, name)
        invariant at <= |pairs| && pairs == old(pairs)
        invariant forall i :: 0 <= i < at ==> Less(pairs[i].0, name)
      {
        at := at + 1;
      }
      PutKeepsSorted(pairs, name, hash);
      EntriesAfterPut(pairs, name, hash);
      PutAt(pairs, at, name, hash);
      if at < |pairs| && pairs[at].0 == name {
        pairs := pairs[..at] + [(name, hash)] + pairs[at + 1..];
      } else {
        pairs := pairs[..at] + [(name, hash)] + pairs[at..];
      }
    }
  }

  /** Adding every file of the bag, in the order of the bag. */
  method Collect(bag: seq<Pair>) returns (dictionary: SortedDictionary)
    ensures fresh(dictionary) && dictionary.Valid()
    ensures Entries(dictionary.pairs) == Added(bag)
  {
    dictionary := new SortedDictionary();
    assert bag[..0] == [];
    for i := 0 to |bag|
      invariant fresh(dictionary) && dictionary.Valid() && Entries(dictionary.pairs) == Added(bag[..i])
    {
      assert bag[..i + 1][..i] == bag[..i];
      dictionary.Add(bag[i].0, bag[i].1);
    }
    assert bag[..|bag|] == bag;
  }

  function Added(bag: seq<Pair>): map<string, string> {
    if bag == [] then map[] else Added(bag[..|bag| - 1])[bag[|bag| - 1].0 := bag[|bag| - 1].1]
  }

  method BuildIdentity(version: string, pairs: seq<Pair>) returns (text: string)
    ensures text == Text(version, pairs)
  {
    text := version + "\n";
    for i := 0 to |pairs|
      invariant text + Lines(pairs[i..]) == Text(version, pairs)
    {
      assert pairs[i..][1..] == pairs[i + 1..];
      assert text + (LineOf(pairs[i]) + "\n" + Lines(pairs[i + 1..])) ==
             text + pairs[i].0 + "|" + pairs[i].1 + "\n" + Lines(pairs[i + 1..]);
      text := text + pairs[i].0 + "|" + pairs[i].1 + "\n";
    }
    assert text + "" == text;
  }

  method BuildSubsetIdentity(version: string, pairs: seq<Pair>, keep: string -> bool) returns (text: string)
    ensures text == Text(version, Subset(pairs, keep))
  {
    var subset: seq<Pair> := [];
    for i := 0 to |pairs|
      invariant subset + Subset(pairs[i..], keep) == Subset(pairs, keep)
    {
      assert pairs[i..][1..] == pairs[i + 1..];
      if keep(pairs[i].0) {
        subset := subset + [pairs[i]];
      }
    }
    assert subset + [] == subset;
    text := BuildIdentity(version, subset);
  }

  /** No file is hashed twice. */
  predicate OneHashEach(bag: seq<Pair>) {
    forall i, j :: 0 <= i < j < |bag| ==> bag[i].0 != bag[j].0
  }

  lemma {:induction false} AddedIsBag(bag: seq<Pair>, name: string, hash: string)
    requires OneHashEach(bag)
    ensures name in Added(bag) && Added(bag)[name] == hash <==> (name, hash) in bag
  {
    if bag != [] {
      var rest, last := bag[..|bag| - 1], bag[|bag| - 1];
      assert bag == rest + [last];
      AddedIsBag(rest, name, hash);
      assert forall i :: 0 <= i < |rest| ==> rest[i] == bag[i] && rest[i].0 != last.0;
    }
  }

  /** The same files hashed in any order give the same entries. */
  lemma OrderIndependent(a: seq<Pair>, b: seq<Pair>)
    requires OneHashEach(a) && OneHashEach(b) && forall p :: p in a <==> p in b
    ensures Added(a) == Added(b)
  {
    forall name | name in Added(a)
      ensures name in Added(b) && Added(b)[name] == Added(a)[name]
    {
      AddedIsBag(a, name, Added(a)[name]);
      AddedIsBag(b, name, Added(a)[name]);
    }
    forall name | name in Added(b)
      ensures name in Added(a)
    {
      AddedIsBag(b, name, Added(b)[name]);
      AddedIsBag(a, name, Added(b)[name]);
    }
  }

  /** Two walks: their compile texts agree exactly when they found the same files with the same
      hashes, in whatever order, and the texts of a subset exactly when they did so within it. */
  method CompareWalks(version: string, a: seq<Pair>, b: seq<Pair>, subsetVersion: string, keep: string -> bool)
    returns (textA: string, textB: string, subsetA: string, subsetB: string)
    requires '\n' !in version
    requires OneHashEach(a) && OneHashEach(b) && Distinguishable(a) && Distinguishable(b)
    requires '\n' !in subsetVersion
    ensures textA == textB <==> forall p :: p in a <==> p in b
    ensures subsetA == subsetB <==> forall p: Pair :: keep(p.0) ==> (p in a <==> p in b)
  {
    var da := Collect(a);
    var db := Collect(b);
    textA := BuildIdentity(version, da.pairs);
    textB := BuildIdentity(version, db.pairs);
    subsetA := BuildSubsetIdentity(subsetVersion, da.pairs, keep);
    subsetB := BuildSubsetIdentity(subsetVersion, db.pairs, keep);
    SameTextSameFiles(version, a, da.pairs, b, db.pairs);
    SameSubsetSameFiles(subsetVersion, a, da.pairs, b, db.pairs, keep);
  }

  /** A subset has exactly the kept entries, in the same order. */
  lemma {:induction false} SubsetKeeps(pairs: seq<Pair>, keep: string -> bool)
    requires Sorted(pairs)
    ensures forall p :: p in Subset(pairs, keep) <==> p in pairs && keep(p.0)
    ensures Sorted(Subset(pairs, keep))
  {
    if pairs != [] {
      var rest := Subset(pairs[1..], keep);
      SubsetKeeps(pairs[1..], keep);
      assert pairs == [pairs[0]] + pairs[1..];
      forall j | 0 <= j < |rest|
        ensures Less(pairs[0].0, rest[j].0)
      {
        assert rest[j] in pairs[1..];
        var i :| 0 <= i < |pairs| - 1 && pairs[1..][i] == rest[j];
        assert pairs[i + 1] == rest[j];
      }
    }
  }

  /** Sorted lists with the same members are the same list. */
  lemma SameMembersSameList(a: seq<Pair>, b: seq<Pair>)
    requires Sorted(a) && Sorted(b) && forall p :: p in a <==> p in b
    ensures a == b
  {
    forall name | name in Entries(a)
      ensures name in Entries(b) && Entries(b)[name] == Entries(a)[name]
    {
      MemberOfEntries(a, name, b);
    }
    forall name | name in Entries(b)
      ensures name in Entries(a)
    {
      MemberOfEntries(b, name, a);
    }
    SortedIsUnique(a, b);
  }

  lemma MemberOfEntries(a: seq<Pair>, name: string, b: seq<Pair>)
    requires Sorted(a) && Sorted(b) && name in Entries(a) && forall p :: p in a ==> p in b
    ensures name in Entries(b) && Entries(b)[name] == Entries(a)[name]
  {
    NamesOf(a, name);
    var i :| 0 <= i < |a| && a[i].0 == name;
    EntryAt(a, i);
    assert a[i] in b;
    var k :| 0 <= k < |b| && b[k] == a[i];
    EntryAt(b, k);
  }

  lemma CollectedMembers(bag: seq<Pair>, pairs: seq<Pair>)
    requires OneHashEach(bag) && Sorted(pairs) && Entries(pairs) == Added(bag)
    ensures forall p :: p in pairs <==> p in bag
  {
    forall p: Pair
      ensures p in pairs <==> p in bag
    {
      AddedIsBag(bag, p.0, p.1);
      if p in pairs {
        var i :| 0 <= i < |pairs| && pairs[i] == p;
        EntryAt(pairs, i);
      }
      if p in bag {
        NamesOf(pairs, p.0);
        var i :| 0 <= i < |pairs| && pairs[i].0 == p.0;
        EntryAt(pairs, i);
      }
    }
  }

  lemma SameSubsetSameFiles(
    version: string, a: seq<Pair>, pa: seq<Pair>, b: seq<Pair>, pb: seq<Pair>, keep: string -> bool)
    requires '\n' !in version
    requires OneHashEach(a) && OneHashEach(b) && Distinguishable(a) && Distinguishable(b)
    requires Sorted(pa) && Entries(pa) == Added(a) && Sorted(pb) && Entries(pb) == Added(b)
    ensures Text(version, Subset(pa, keep)) == Text(version, Subset(pb, keep)) <==>
            forall p: Pair :: keep(p.0) ==> (p in a <==> p in b)
  {
    CollectedMembers(a, pa);
    CollectedMembers(b, pb);
    SubsetKeeps(pa, keep);
    SubsetKeeps(pb, keep);
    var sa, sb := Subset(pa, keep), Subset(pb, keep);
    assert Distinguishable(sa) by {
      assert forall i :: 0 <= i < |sa| ==> sa[i] in a;
    }
    assert Distinguishable(sb) by {
      assert forall i :: 0 <= i < |sb| ==> sb[i] in b;
    }
    if Text(version, sa) == Text(version, sb) {
      TextInjective(version, sa, version, sb);
      forall p: Pair | keep(p.0)
        ensures p in a <==> p in b
      {
        assert p in sa <==> p in sb;
      }
    }
    if forall p: Pair :: keep(p.0) ==> (p in a <==> p in b) {
      SameMembersSameList(sa, sb);
    }
  }

  lemma CollectedDistinguishable(bag: seq<Pair>, pairs: seq<Pair>)
    requires OneHashEach(bag) && Distinguishable(bag) && Sorted(pairs) && Entries(pairs) == Added(bag)
    ensures Distinguishable(pairs)
  {
    forall i | 0 <= i < |pairs|
      ensures pairs[i] in bag
    {
      EntryAt(pairs, i);
      AddedIsBag(bag, pairs[i].0, pairs[i].1);
    }
  }

  lemma {:induction false} EntryAt(pairs: seq<Pair>, i: nat)
    requires Sorted(pairs) && i < |pairs|
    ensures pairs[i].0 in Entries(pairs) && Entries(pairs)[pairs[i].0] == pairs[i].1
  {
    if i > 0 {
      EntryAt(pairs[1..], i - 1);
      LessIsOrder(pairs[0].0, pairs[0].0, "");
    }
  }

  lemma SameTextSameFiles(version: string, a: seq<Pair>, pa: seq<Pair>, b: seq<Pair>, pb: seq<Pair>)
    requires '\n' !in version
    requires OneHashEach(a) && OneHashEach(b) && Distinguishable(a) && Distinguishable(b)
    requires Sorted(pa) && Entries(pa) == Added(a) && Sorted(pb) && Entries(pb) == Added(b)
    ensures Text(version, pa) == Text(version, pb) <==> pa == pb
    ensures pa == pb <==> forall p :: p in a <==> p in b
  {
    CollectedDistinguishable(a, pa);
    CollectedDistinguishable(b, pb);
    if Text(version, pa) == Text(version, pb) {
      TextInjective(version, pa, version, pb);
    }
    if forall p :: p in a <==> p in b {
      OrderIndependent(a, b);
      SortedIsUnique(pa, pb);
    }
    if pa == pb {
      forall p: Pair
        ensures p in a <==> p in b
      {
        AddedIsBag(a, p.0, p.1);
        AddedIsBag(b, p.0, p.1);
      }
    }
  }
}
