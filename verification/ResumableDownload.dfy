/** A download that resumes after a broken read, from a server whose file may change
    between any two requests. */
module ResumableDownload {
  import opened Primitives
  import opened Wrappers

  datatype Tag = NoTag | Weak(id: nat) | Strong(id: nat)
  datatype Version = Version(tag: Tag, content: seq<Byte>)

  /** The answer to one request. `length` is the declared length of the body, and
      `complete` the length of the whole file that a partial answer declares. */
  datatype Response =
    | Refused
    | Full(version: Version, length: Option<nat>)
    | Partial(version: Version, from: nat, upto: nat, length: Option<nat>, complete: Option<nat>)

  /** How an attempt fares once the answer is there: a local failure before the file is
      opened, or so many bytes of the body before the stream ends or breaks. */
  datatype Fate = FailsBeforeOpening | Delivers(count: nat, breaks: bool)

  datatype Attempt = Attempt(response: Response, fate: Fate)

  datatype State = State(file: Option<seq<Byte>>, validator: Option<nat>)

  datatype Outcome = Returned | Retried | Threw

  predicate WellFormed(r: Response) {
    r.Partial? ==> r.from < r.upto <= |r.version.content|
  }

  function Body(r: Response): seq<Byte>
    requires WellFormed(r) && !r.Refused?
  {
    if r.Full? then r.version.content else r.version.content[r.from..r.upto]
  }

  /** What arrives of the body. */
  function Received(a: Attempt): seq<Byte>
    requires WellFormed(a.response) && !a.response.Refused? && a.fate.Delivers?
  {
    Body(a.response)[..if a.fate.count < |Body(a.response)| then a.fate.count else |Body(a.response)|]
  }

  function Offset(s: State): nat {
    if s.validator.Some? && s.file.Some? then |s.file.value| else 0
  }

  function StrongTag(t: Tag): Option<nat> {
    if t.Strong? then Some(t.id) else None
  }

  /** Whether the answer is taken for what was asked. */
  predicate Accepted(s: State, r: Response)
    requires !r.Refused?
  {
    r.Partial? ==>
      && Offset(s) != 0 && r.from == Offset(s) && r.version.tag == Strong(s.validator.value)
      && (r.complete.Some? ==> r.length.Some? && Offset(s) + r.length.value == r.complete.value)
  }

  /** One attempt. */
  function Step(s: State, a: Attempt): (State, Outcome)
    requires WellFormed(a.response)
  {
    if a.response.Refused? then (s, Retried)
    else if !Accepted(s, a.response) then (s, Threw)
    else
      var start := if a.response.Partial? then s.file.value else [];
      var validator := StrongTag(a.response.version.tag);
      if a.fate.FailsBeforeOpening? then (State(s.file, validator), Retried)
      else
        var short := a.response.length.Some? && |Received(a)| != a.response.length.value;
        (State(Some(start + Received(a)), validator), if a.fate.breaks || short then Retried else Returned)
  }

  /** When an attempt gives up, asks for another, or returns, and what it leaves. */
  lemma StepExactly(s: State, a: Attempt)
    requires WellFormed(a.response)
    ensures var (next, outcome) := Step(s, a);
      // A partial answer that was not asked for, or is not the one that was, ends the download.
      && (outcome == Threw <==>
            && a.response.Partial?
            && !(s.validator.Some? && s.file.Some? && |s.file.value| > 0 && a.response.from == |s.file.value|
                 && a.response.version.tag == Strong(s.validator.value)
                 && (a.response.complete.Some? ==>
                       a.response.length.Some?
                       && |s.file.value| + a.response.length.value == a.response.complete.value)))
      && (a.response.Refused? || outcome == Threw ==> next == s)
      && (outcome == Returned ==>
            && a.fate.Delivers? && !a.fate.breaks
            && (a.response.length.Some? ==> |Received(a)| == a.response.length.value))
      // Only a strong tag is kept, and a file that is not opened stays.
      && (!a.response.Refused? && outcome != Threw ==>
            && (next.validator.Some? <==> a.response.version.tag.Strong?)
            && (next.validator.Some? ==> next.validator.value == a.response.version.tag.id)
            && next.file == (if a.fate.FailsBeforeOpening? then s.file
                             else if a.response.Partial? then Some(s.file.value + Received(a))
                             else Some([] + Received(a))))
  {
  }

  /** The attempts in order until one of them does not ask for another. */
  function Attempts(s: State, attempts: seq<Attempt>): (State, Outcome)
    requires forall i :: 0 <= i < |attempts| ==> WellFormed(attempts[i].response)
    decreases |attempts|
  {
    if attempts == [] then (s, Retried)
    else
      var (next, outcome) := Step(s, attempts[0]);
      if outcome == Retried then Attempts(next, attempts[1..]) else (next, outcome)
  }

  /** The server tells the truth: one strong tag is one content (section 8.8.1 of RFC 9110),
      and what it declares of lengths is right. It need not declare any (section 14.4). */
  predicate Honest(contents: nat -> seq<Byte>, r: Response) {
    && WellFormed(r)
    && (!r.Refused? ==>
         && (r.version.tag.Strong? ==> r.version.content == contents(r.version.tag.id))
         && (r.length.Some? ==> r.length.value == |Body(r)|))
    && (r.Partial? && r.complete.Some? ==> r.complete.value == |r.version.content|)
  }

  /** The answer reaches to the end of the file and its body arrives whole. */
  predicate Whole(a: Attempt)
    requires WellFormed(a.response)
  {
    && !a.response.Refused?
    && (a.response.Partial? ==> a.response.upto == |a.response.version.content|)
    && a.fate.Delivers? && a.fate.count >= |Body(a.response)|
  }

  /** The file holds the version the answer is of, if the attempt was whole, and
      otherwise a beginning of it that is too short. */
  predicate Faithful(file: Option<seq<Byte>>, a: Attempt)
    requires WellFormed(a.response)
  {
    && !a.response.Refused? && file.Some? && file.value <= a.response.version.content
    && (file.value == a.response.version.content <==> Whole(a))
  }

  /** What is on disk continues to the version of the validator, or cannot be resumed at all. */
  predicate Resumable(contents: nat -> seq<Byte>, s: State) {
    s.validator.Some? && s.file.Some? && 0 < |s.file.value| < |contents(s.validator.value)| ==>
      s.file.value <= contents(s.validator.value)
  }

  /** A local failure leaves a resumable state: always for a partial answer, and for a full
      one only if what is on disk happens to be a beginning of it. */
  predicate Harmless(s: State, a: Attempt) {
    a.fate.FailsBeforeOpening? && a.response.Full? && a.response.version.tag.Strong? && s.file.Some?
    && 0 < |s.file.value| < |a.response.version.content| ==>
      s.file.value <= a.response.version.content
  }

  lemma StepKeepsResumable(contents: nat -> seq<Byte>, s: State, a: Attempt)
    requires Honest(contents, a.response) && Resumable(contents, s) && Step(s, a).1 == Retried
    ensures Resumable(contents, Step(s, a).0) <==> Harmless(s, a)
  {
  }

  lemma BeginningJoined(content: seq<Byte>, from: nat, upto: nat, count: nat)
    requires from <= upto <= |content| && count <= upto - from
    ensures content[..from] + content[from..upto][..count] == content[..from + count]
  {
  }

  /** What a resumption leaves is a beginning of the version. */
  lemma ResumedFile(contents: nat -> seq<Byte>, s: State, a: Attempt)
    requires Honest(contents, a.response) && Resumable(contents, s) && Step(s, a).1 == Returned
    requires a.response.Partial?
    ensures var file := Step(s, a).0.file;
      file == Some(a.response.version.content[..a.response.from + |Received(a)|])
  {
    var content, from := a.response.version.content, a.response.from;
    assert s.file.value == content[..from];
    BeginningJoined(content, from, a.response.upto, |Received(a)|);
  }

  /** From a resumable state a returning attempt leaves no mixture, and the whole version
      if and only if its answer was whole. */
  lemma ReturnedVersion(contents: nat -> seq<Byte>, s: State, a: Attempt)
    requires Honest(contents, a.response) && Resumable(contents, s) && Step(s, a).1 == Returned
    ensures Faithful(Step(s, a).0.file, a)
  {
    if a.response.Partial? {
      ResumedFile(contents, s, a);
    } else {
      assert [] + Received(a) == Received(a);
    }
  }

  /** A declared length of the body leaves only ranges that stop short of the end, and a
      declared length of the file none. */
  lemma DeclaredIsWhole(contents: nat -> seq<Byte>, s: State, a: Attempt)
    requires Honest(contents, a.response) && Step(s, a).1 == Returned
    ensures a.response.length.Some? ==>
      (Whole(a) <==> (a.response.Partial? ==> a.response.upto == |a.response.version.content|))
    ensures a.response.Partial? && a.response.complete.Some? ==> Whole(a)
  {
  }

  /** No attempt fails between replacing the validator and opening the file while other
      bytes are on disk. */
  predicate AllHarmless(s: State, attempts: seq<Attempt>)
    requires forall i :: 0 <= i < |attempts| ==> WellFormed(attempts[i].response)
    decreases |attempts|
  {
    attempts == [] ||
    (Harmless(s, attempts[0]) && (Step(s, attempts[0]).1 == Retried ==> AllHarmless(Step(s, attempts[0]).0, attempts[1..])))
  }

  /** The attempt that returned. */
  function Returning(s: State, attempts: seq<Attempt>): (i: nat)
    requires forall i :: 0 <= i < |attempts| ==> WellFormed(attempts[i].response)
    requires Attempts(s, attempts).1 == Returned
    ensures i < |attempts|
    decreases |attempts|
  {
    if Step(s, attempts[0]).1 == Returned then 0 else Returning(Step(s, attempts[0]).0, attempts[1..]) + 1
  }

  /** A download that returns leaves no mixture: the file is the version that the returning
      attempt was an answer of, or, exactly if that answer was not whole, a beginning of it. */
  lemma {:induction false} NoMixedDownload(contents: nat -> seq<Byte>, s: State, attempts: seq<Attempt>)
    requires forall i :: 0 <= i < |attempts| ==> WellFormed(attempts[i].response) && Honest(contents, attempts[i].response)
    requires Resumable(contents, s) && AllHarmless(s, attempts)
    requires Attempts(s, attempts).1 == Returned
    ensures Faithful(Attempts(s, attempts).0.file, attempts[Returning(s, attempts)])
    decreases |attempts|
  {
    var (next, outcome) := Step(s, attempts[0]);
    if outcome == Retried {
      StepKeepsResumable(contents, s, attempts[0]);
      NoMixedDownload(contents, next, attempts[1..]);
    } else {
      ReturnedVersion(contents, s, attempts[0]);
    }
  }

  /** The answer a server must give that still has the version of the validator. */
  function Resumption(contents: nat -> seq<Byte>, s: State): Attempt
    requires s.validator.Some? && s.file.Some? && |s.file.value| < |contents(s.validator.value)|
  {
    var content := contents(s.validator.value);
    var from := |s.file.value|;
    Attempt(
      Partial(Version(Strong(s.validator.value), content), from, |content|, Some(|content| - from), Some(|content|)),
      Delivers(|content| - from, false))
  }

  /** Whether the next attempt can leave a mixture: exactly in the states that are not
      resumable, where an honest and whole resumption joins two versions and returns. */
  lemma ResumableExactly(contents: nat -> seq<Byte>, s: State)
    ensures Resumable(contents, s) <==>
            forall a: Attempt :: Honest(contents, a.response) && Step(s, a).1 == Returned ==>
              Faithful(Step(s, a).0.file, a)
  {
    if Resumable(contents, s) {
      forall a: Attempt | Honest(contents, a.response) && Step(s, a).1 == Returned
        ensures Faithful(Step(s, a).0.file, a)
      {
        ReturnedVersion(contents, s, a);
      }
    } else {
      var a := Resumption(contents, s);
      MixedResumption(contents, s);
    }
  }

  lemma MixedResumption(contents: nat -> seq<Byte>, s: State)
    requires !Resumable(contents, s)
    ensures var a, content := Resumption(contents, s), contents(s.validator.value);
      && Honest(contents, a.response) && Whole(a)
      && Step(s, a) == (State(Some(s.file.value + content[|s.file.value|..]), s.validator), Returned)
      && s.file.value + content[|s.file.value|..] != content
  {
    var file, content := s.file.value, contents(s.validator.value);
    var a := Resumption(contents, s);
    assert Body(a.response) == content[|file|..] && content[|file|..][..|content| - |file|] == content[|file|..];
    assert (file + content[|file|..])[..|file|] == file;
  }

  /** Three attempts suffice: a broken read of one version, a full disk when the next
      version is offered, and a resumption of that version. */
  lemma MixedDownload(contents: nat -> seq<Byte>)
    requires contents(1) == [1, 2] && contents(2) == [3, 4]
    ensures var attempts := [
        Attempt(Full(Version(Strong(1), [1, 2]), Some(2)), Delivers(1, true)),
        Attempt(Full(Version(Strong(2), [3, 4]), Some(2)), FailsBeforeOpening),
        Attempt(Partial(Version(Strong(2), [3, 4]), 1, 2, Some(1), Some(2)), Delivers(1, false))];
      && (forall i :: 0 <= i < 3 ==> Honest(contents, attempts[i].response))
      && Attempts(State(None, None), attempts) == (State(Some([1, 4]), Some(2)), Returned)
  {
    var first := Attempt(Full(Version(Strong(1), [1, 2]), Some(2)), Delivers(1, true));
    var second := Attempt(Full(Version(Strong(2), [3, 4]), Some(2)), FailsBeforeOpening);
    var third := Attempt(Partial(Version(Strong(2), [3, 4]), 1, 2, Some(1), Some(2)), Delivers(1, false));
    var attempts := [first, second, third];
    assert Body(first.response)[..1] == [1] && [] + [1] == [1];
    assert Step(State(None, None), first) == (State(Some([1]), Some(1)), Retried);
    assert Step(State(Some([1]), Some(1)), second) == (State(Some([1]), Some(2)), Retried);
    assert Body(third.response) == [4] && [4][..1] == [4] && [1] + [4] == [1, 4];
    assert Step(State(Some([1]), Some(2)), third) == (State(Some([1, 4]), Some(2)), Returned);
    assert attempts[1..] == [second, third] && attempts[1..][1..] == [third] && [third][1..] == [];
    assert Attempts(State(Some([1]), Some(2)), [third]) == (State(Some([1, 4]), Some(2)), Returned);
    assert Attempts(State(Some([1]), Some(1)), [second, third]) == Attempts(State(Some([1]), Some(2)), [third]);
  }

  /** A server that leaves the length of the file open may send less than the rest of it;
      then a beginning of the file is returned. */
  lemma TruncatedDownload(contents: nat -> seq<Byte>, third: Attempt)
    requires contents(1) == [1, 2, 3] && WellFormed(third.response)
    ensures var attempts := [
        Attempt(Full(Version(Strong(1), [1, 2, 3]), Some(3)), Delivers(1, true)),
        Attempt(Partial(Version(Strong(1), [1, 2, 3]), 1, 2, Some(1), None), Delivers(1, false)),
        third];
      && Honest(contents, attempts[0].response) && Honest(contents, attempts[1].response)
      && Attempts(State(None, None), attempts) == (State(Some([1, 2]), Some(1)), Returned)
  {
    var first := Attempt(Full(Version(Strong(1), [1, 2, 3]), Some(3)), Delivers(1, true));
    var second := Attempt(Partial(Version(Strong(1), [1, 2, 3]), 1, 2, Some(1), None), Delivers(1, false));
    var attempts := [first, second, third];
    assert Body(first.response)[..1] == [1] && [] + [1] == [1];
    assert Step(State(None, None), first) == (State(Some([1]), Some(1)), Retried);
    assert Body(second.response) == [2] && [2][..1] == [2] && [1] + [2] == [1, 2];
    assert Step(State(Some([1]), Some(1)), second) == (State(Some([1, 2]), Some(1)), Returned);
    assert attempts[1..] == [second, third];
    assert Attempts(State(Some([1]), Some(1)), [second, third]) == (State(Some([1, 2]), Some(1)), Returned);
  }

  /** So does a server that declares no length at all, when its stream ends early without
      an error: in any state such an answer is taken for the whole file. */
  lemma CutOffDownload(contents: nat -> seq<Byte>, s: State, version: Version, count: nat)
    requires version.tag.Strong? ==> version.content == contents(version.tag.id)
    requires count < |version.content|
    ensures var a := Attempt(Full(version, None), Delivers(count, false));
      && Honest(contents, a.response)
      && Step(s, a) == (State(Some(version.content[..count]), StrongTag(version.tag)), Returned)
  {
    assert [] + version.content[..count] == version.content[..count];
  }

  lemma MoreReceived(start: seq<Byte>, body: seq<Byte>, received: nat, count: nat)
    requires received + count <= |body|
    ensures start + body[..received] + body[received..received + count] == start + body[..received + count]
  {
  }

  const MAXIMUM_ATTEMPTS: nat := 3
  const BUFFER: nat := 0x10_0000

  class Download {
    var file: Option<seq<Byte>>

    constructor (file: Option<seq<Byte>>)
      ensures this.file == file
    {
      this.file := file;
    }

    /** Three attempts, the last failure being reported when none of them returned. */
    method Run(attempts: seq<Attempt>) returns (outcome: Outcome)
      requires |attempts| == 3
      requires forall i :: 0 <= i < |attempts| ==> WellFormed(attempts[i].response)
      modifies this
      ensures (file, outcome) == (Attempts(State(old(file), None), attempts).0.file,
                                  Attempts(State(old(file), None), attempts).1)
    {
      var validator: Option<nat> := None;
      for attempt := 0 to MAXIMUM_ATTEMPTS
        invariant Attempts(State(old(file), None), attempts) == Attempts(State(file, validator), attempts[attempt..])
      {
        var a := attempts[attempt];
        assert attempts[attempt..][1..] == attempts[attempt + 1..];
        validator, outcome := Try(validator, a);
        if outcome != Retried {
          return;
        }
      }
      outcome := Retried;
    }

    method Try(validator: Option<nat>, a: Attempt) returns (validator': Option<nat>, outcome: Outcome)
      requires WellFormed(a.response)
      modifies this
      ensures (State(file, validator'), outcome) == Step(State(old(file), validator), a)
    {
      validator' := validator;
      var offset := if validator.Some? && file.Some? then |file.value| else 0;
      var response := a.response;
      if response.Refused? {
        return validator', Retried;
      }
      if response.Partial? {
        if offset == 0 || response.from != offset || response.version.tag != Strong(validator.value)
           || (response.complete.Some? && (response.length.None? || offset + response.length.value != response.complete.value)) {
          return validator', Threw;
        }
      } else {
        offset := 0;
      }
      validator' := StrongTag(response.version.tag);
      if a.fate.FailsBeforeOpening? {
        return validator', Retried;
      }
      if offset == 0 {
        file := Some([]);
      }
      var body := Body(response);
      var delivered := if a.fate.count < |body| then a.fate.count else |body|;
      ghost var start := file.value;
      var received := 0;
      assert start + body[..0] == start;
      while received < delivered
        invariant received <= delivered
        invariant file == Some(start + body[..received])
      {
        var count := if delivered - received < BUFFER then delivered - received else BUFFER;
        MoreReceived(start, body, received, count);
        file := Some(file.value + body[received..received + count]);
        received := received + count;
      }
      var short := response.length.Some? && received != response.length.value;
      outcome := if a.fate.breaks || short then Retried else Returned;
    }
  }
}
