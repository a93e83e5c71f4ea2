/** The text of one configuration line: comments, quoting, trimming, and what a
    line means to the reader. */
module ConfigText {
  import opened ConfigSections
  import opened Primitives
  import opened Wrappers

  // Comments

  datatype Quotes = Quotes(single: bool, double: bool, escaped: bool)

  const OUTSIDE := Quotes(false, false, false)
  const IN_DOUBLE := Quotes(false, true, false)

  function Step(q: Quotes, c: char): Quotes {
    if q.double && c == '\\' && !q.escaped then q.(escaped := true)
    else if c == '\'' && !q.double then q.(single := !q.single, escaped := false)
    else if c == '"' && !q.single && !q.escaped then q.(double := !q.double, escaped := false)
    else q.(escaped := false)
  }

  function After(q: Quotes, s: string): Quotes
    decreases s
  {
    if s == "" then q else After(Step(q, s[0]), s[1..])
  }

  /** The part of s before its first comment, when the quotes stand at q. */
  function Uncommented(q: Quotes, s: string): string
    decreases s
  {
    if s == "" || (s[0] == '#' && !q.single && !q.double) then ""
    else [s[0]] + Uncommented(Step(q, s[0]), s[1..])
  }

  lemma UncommentedStep(q: Quotes, s: string, at: nat)
    requires at < |s| && !(s[at] == '#' && !q.single && !q.double)
    ensures s[..at] + Uncommented(q, s[at..]) == s[..at + 1] + Uncommented(Step(q, s[at]), s[at + 1..])
  {
    assert s[at..][1..] == s[at + 1..];
    assert s[..at + 1] == s[..at] + [s[at]];
  }

  method RemoveComment(line: string) returns (r: string)
    ensures r == Uncommented(OUTSIDE, line)
  {
    var inSingle, inDouble, escaped := false, false, false;
    for index := 0 to |line|
      invariant Uncommented(OUTSIDE, line) == line[..index] + Uncommented(Quotes(inSingle, inDouble, escaped), line[index..])
    {
      var character := line[index];
      if character == '#' && !inSingle && !inDouble {
        return line[..index];
      }
      UncommentedStep(Quotes(inSingle, inDouble, escaped), line, index);
      inSingle, inDouble, escaped := NextQuotes(inSingle, inDouble, escaped, character);
    }
    return line;
  }

  method NextQuotes(inSingle: bool, inDouble: bool, escaped: bool, character: char)
    returns (single: bool, double: bool, escape: bool)
    ensures Quotes(single, double, escape) == Step(Quotes(inSingle, inDouble, escaped), character)
  {
    single, double, escape := inSingle, inDouble, false;
    if inDouble && character == '\\' && !escaped {
      escape := true;
    } else if character == '\'' && !inDouble {
      single := !inSingle;
    } else if character == '"' && !inSingle && !escaped {
      double := !inDouble;
    }
  }

  lemma {:induction false} UncommentedSplit(q: Quotes, a: string, b: string)
    requires Uncommented(q, a) == a
    ensures Uncommented(q, a + b) == a + Uncommented(After(q, a), b)
    decreases a
  {
    if a == "" {
      assert a + b == b;
    } else {
      assert (a + b)[1..] == a[1..] + b;
      assert a == [a[0]] + a[1..];
      assert Uncommented(Step(q, a[0]), a[1..]) == a[1..];
      UncommentedSplit(Step(q, a[0]), a[1..], b);
    }
  }

  lemma {:induction false} AfterSplit(q: Quotes, a: string, b: string)
    ensures After(q, a + b) == After(After(q, a), b)
    decreases a
  {
    if a == "" {
      assert a + b == b;
    } else {
      assert (a + b)[1..] == a[1..] + b;
      AfterSplit(Step(q, a[0]), a[1..], b);
    }
  }

  predicate Plain(c: char) {
    c != '\'' && c != '"' && c != '#'
  }

  /** Text without quotes and hashes is never part of a comment and opens nothing. */
  lemma {:induction false} PlainText(s: string)
    requires forall i :: 0 <= i < |s| ==> Plain(s[i])
    ensures Uncommented(OUTSIDE, s) == s && After(OUTSIDE, s) == OUTSIDE
  {
    if s != "" {
      assert Step(OUTSIDE, s[0]) == OUTSIDE;
      PlainText(s[1..]);
    }
  }

  // Where comments begin

  /** A piece of a line: bare text, a string in double quotes or one in single quotes. */
  datatype Token = Bare(text: string) | Basic(body: string) | Literal(body: string)

  /** Between double quotes a backslash takes the next character with it. */
  predicate BasicBody(s: string) {
    || s == ""
    || (s[0] == '\\' && |s| >= 2 && BasicBody(s[2..]))
    || (s[0] != '\\' && s[0] != '"' && BasicBody(s[1..]))
  }

  predicate IsToken(t: Token) {
    match t
    case Bare(text) => forall i :: 0 <= i < |text| ==> text[i] != '\'' && text[i] != '"' && text[i] != '#'
    case Basic(body) => BasicBody(body)
    case Literal(body) => '\'' !in body
  }

  function Spelled(t: Token): string {
    match t
    case Bare(text) => text
    case Basic(body) => ['"'] + (body + ['"'])
    case Literal(body) => ['\''] + (body + ['\''])
  }

  function SpelledAll(tokens: seq<Token>): string {
    if tokens == [] then "" else Spelled(tokens[0]) + SpelledAll(tokens[1..])
  }

  const IN_SINGLE := Quotes(true, false, false)

  lemma {:induction false} BasicBodyInside(s: string)
    requires BasicBody(s)
    ensures Uncommented(IN_DOUBLE, s) == s && After(IN_DOUBLE, s) == IN_DOUBLE
  {
    if s != "" {
      if s[0] == '\\' {
        var pair := [s[0], s[1]];
        assert s == pair + s[2..];
        TwoChars(IN_DOUBLE, s[0], s[1]);
        BasicBodyInside(s[2..]);
        UncommentedSplit(IN_DOUBLE, pair, s[2..]);
        AfterSplit(IN_DOUBLE, pair, s[2..]);
      } else {
        assert Step(IN_DOUBLE, s[0]) == IN_DOUBLE;
        BasicBodyInside(s[1..]);
      }
    }
  }

  lemma {:induction false} LiteralBodyInside(s: string)
    requires '\'' !in s
    ensures Uncommented(IN_SINGLE, s) == s && After(IN_SINGLE, s) == IN_SINGLE
  {
    if s != "" {
      assert Step(IN_SINGLE, s[0]) == IN_SINGLE;
      LiteralBodyInside(s[1..]);
    }
  }

  /** A string that is opened by c and closed by c. */
  lemma QuotedScan(q: Quotes, c: char, body: string)
    requires Step(OUTSIDE, c) == q && Step(q, c) == OUTSIDE && c != '#' && (q.single || q.double)
    requires Uncommented(q, body) == body && After(q, body) == q
    ensures Uncommented(OUTSIDE, [c] + body) == [c] + body && After(OUTSIDE, [c] + body) == q
    ensures Uncommented(OUTSIDE, [c] + (body + [c])) == [c] + (body + [c])
    ensures After(OUTSIDE, [c] + (body + [c])) == OUTSIDE
  {
    assert ([c] + body)[1..] == body && ([c] + (body + [c]))[1..] == body + [c];
    assert [c][1..] == "";
    UncommentedSplit(q, body, [c]);
    AfterSplit(q, body, [c]);
  }

  lemma TokenScan(t: Token)
    requires IsToken(t)
    ensures Uncommented(OUTSIDE, Spelled(t)) == Spelled(t) && After(OUTSIDE, Spelled(t)) == OUTSIDE
  {
    match t
    case Bare(text) => PlainText(text);
    case Basic(body) =>
      BasicBodyInside(body);
      QuotedScan(IN_DOUBLE, '"', body);
    case Literal(body) =>
      LiteralBodyInside(body);
      QuotedScan(IN_SINGLE, '\'', body);
  }

  lemma {:induction false} TokensScan(tokens: seq<Token>)
    requires forall i :: 0 <= i < |tokens| ==> IsToken(tokens[i])
    ensures Uncommented(OUTSIDE, SpelledAll(tokens)) == SpelledAll(tokens) && After(OUTSIDE, SpelledAll(tokens)) == OUTSIDE
  {
    if tokens != [] {
      TokenScan(tokens[0]);
      TokensScan(tokens[1..]);
      UncommentedSplit(OUTSIDE, Spelled(tokens[0]), SpelledAll(tokens[1..]));
      AfterSplit(OUTSIDE, Spelled(tokens[0]), SpelledAll(tokens[1..]));
    }
  }

  /** A comment begins at the first hash outside quotes, and nowhere in a string, whether
      it is closed or not. */
  lemma CommentBegins(tokens: seq<Token>, rest: string)
    requires forall i :: 0 <= i < |tokens| ==> IsToken(tokens[i])
    ensures Uncommented(OUTSIDE, SpelledAll(tokens) + (['#'] + rest)) == SpelledAll(tokens)
    ensures BasicBody(rest) ==>
      Uncommented(OUTSIDE, SpelledAll(tokens) + (['"'] + rest)) == SpelledAll(tokens) + (['"'] + rest)
    ensures '\'' !in rest ==>
      Uncommented(OUTSIDE, SpelledAll(tokens) + (['\''] + rest)) == SpelledAll(tokens) + (['\''] + rest)
  {
    TokensScan(tokens);
    UncommentedSplit(OUTSIDE, SpelledAll(tokens), ['#'] + rest);
    UncommentedSplit(OUTSIDE, SpelledAll(tokens), ['"'] + rest);
    UncommentedSplit(OUTSIDE, SpelledAll(tokens), ['\''] + rest);
    assert SpelledAll(tokens) + "" == SpelledAll(tokens);
    if BasicBody(rest) {
      BasicBodyInside(rest);
      QuotedScan(IN_DOUBLE, '"', rest);
    }
    if '\'' !in rest {
      LiteralBodyInside(rest);
      QuotedScan(IN_SINGLE, '\'', rest);
    }
  }

  // White space

  function TrimStart(s: string): (r: string)
    ensures |r| <= |s| && r == s[|s| - |r|..]
    ensures r != "" ==> !IsWhitespace(r[0])
  {
    if s == "" || !IsWhitespace(s[0]) then s else TrimStart(s[1..])
  }

  function TrimEnd(s: string): (r: string)
    ensures r <= s
    ensures r != "" ==> !IsWhitespace(r[|r| - 1])
  {
    if s == "" || !IsWhitespace(s[|s| - 1]) then s else TrimEnd(s[..|s| - 1])
  }

  /** Trimming takes away nothing but white space. */
  lemma {:induction false} OnlySpaceBefore(s: string)
    ensures forall i :: 0 <= i < |s| - |TrimStart(s)| ==> IsWhitespace(s[i])
  {
    if s != "" && IsWhitespace(s[0]) {
      OnlySpaceBefore(s[1..]);
      forall i | 0 <= i < |s| - |TrimStart(s)|
        ensures IsWhitespace(s[i])
      {
        assert i > 0 ==> s[i] == s[1..][i - 1];
      }
    }
  }

  lemma {:induction false} OnlySpaceAfter(s: string)
    ensures forall i :: |TrimEnd(s)| <= i < |s| ==> IsWhitespace(s[i])
    decreases |s|
  {
    if s != "" && IsWhitespace(s[|s| - 1]) {
      OnlySpaceAfter(s[..|s| - 1]);
      forall i | |TrimEnd(s)| <= i < |s|
        ensures IsWhitespace(s[i])
      {
        assert i < |s| - 1 ==> s[i] == s[..|s| - 1][i];
      }
    }
  }

  function Trim(s: string): string {
    TrimEnd(TrimStart(s))
  }

  lemma {:induction false} TrimEndSplit(a: string, b: string)
    ensures TrimEnd(a + b) == if TrimEnd(b) == "" then TrimEnd(a) else a + TrimEnd(b)
  {
    if b == "" {
      assert a + b == a;
    } else if IsWhitespace(b[|b| - 1]) {
      assert (a + b)[..|a + b| - 1] == a + b[..|b| - 1];
      TrimEndSplit(a, b[..|b| - 1]);
    }
  }

  predicate Trimmed(s: string) {
    s == "" || (!IsWhitespace(s[0]) && !IsWhitespace(s[|s| - 1]))
  }

  /** Trimming the end first or the start first comes to the same. */
  lemma {:induction false} TrimOfTrimEnd(s: string)
    ensures Trim(TrimEnd(s)) == Trim(s)
  {
    if s == "" || !IsWhitespace(s[0]) {
      var t := TrimEnd(s);
      assert TrimEnd(t) == t;
    } else {
      assert s == [s[0]] + s[1..];
      TrimEndSplit([s[0]], s[1..]);
      assert TrimEnd([s[0]]) == "";
      TrimOfTrimEnd(s[1..]);
      if TrimEnd(s[1..]) != "" {
        assert ([s[0]] + TrimEnd(s[1..]))[1..] == TrimEnd(s[1..]);
      }
    }
  }

  // Lines

  function IndexOf(s: string, c: char): (r: int)
    ensures -1 <= r < |s|
    ensures r >= 0 ==> s[r] == c && c !in s[..r]
    ensures r < 0 ==> c !in s
  {
    if s == "" then -1
    else if s[0] == c then 0
    else
      var r := IndexOf(s[1..], c);
      if r < 0 then
        assert s == [s[0]] + s[1..];
        -1
      else
        assert s[..r + 1] == [s[0]] + s[1..][..r];
        r + 1
  }

  predicate IsSection(s: string) {
    |s| >= 2 && s[0] == '[' && s[|s| - 1] == ']'
  }

  function Parsed(trimmed: string): Line {
    if IsSection(trimmed) then Header(trimmed)
    else
      var equals := IndexOf(trimmed, '=');
      if equals < 0 then Other else Pair(Trim(trimmed[..equals]), Trim(trimmed[equals + 1..]))
  }

  /** What a line means to every reader of the file. */
  function Meaning(line: string): Line {
    if Trim(line) == "" then Blank else Parsed(Trim(Uncommented(OUTSIDE, line)))
  }

  predicate CleanKey(key: string) {
    && key != "" && Trimmed(key) && key[0] != '[' && '=' !in key
    && forall i :: 0 <= i < |key| ==> Plain(key[i])
  }

  predicate CleanSection(section: string) {
    Uncommented(OUTSIDE, "[" + section + "]") == "[" + section + "]"
  }

  /** What the reader makes of a value: comments and surrounding space are not part of it. */
  function Normal(value: string): string {
    Trim(Uncommented(OUTSIDE, value))
  }

  lemma LeadingSpace(s: string)
    requires s != "" && IsWhitespace(s[0])
    ensures Trim(s) == Trim(s[1..])
  {
    assert TrimStart(s) == TrimStart(s[1..]);
  }

  /** A line that starts with a visible character is not blank. */
  lemma VisibleLine(line: string)
    requires line != "" && !IsWhitespace(line[0])
    ensures Trim(line) != ""
  {
    assert line == [line[0]] + line[1..];
    TrimEndSplit([line[0]], line[1..]);
    assert TrimEnd([line[0]]) == [line[0]];
  }

  lemma SpaceUncommented(line: string)
    requires line != "" && IsWhitespace(line[0])
    ensures var r := Uncommented(OUTSIDE, line);
      r != "" && r[0] == line[0] && r[1..] == Uncommented(OUTSIDE, line[1..])
  {
    assert Step(OUTSIDE, line[0]) == OUTSIDE;
  }

  /** A blank line has nothing in it for any reader. */
  lemma {:induction false} BlankHasNothing(line: string)
    requires Trim(line) == ""
    ensures Trim(Uncommented(OUTSIDE, line)) == ""
  {
    if line != "" {
      if !IsWhitespace(line[0]) {
        VisibleLine(line);
      } else {
        LeadingSpace(line);
        BlankHasNothing(line[1..]);
        SpaceUncommented(line);
        LeadingSpace(Uncommented(OUTSIDE, line));
      }
    }
  }

  lemma HeaderMeaning(header: string)
    requires IsSection(header) && Uncommented(OUTSIDE, header) == header
    ensures Meaning(header) == Header(header)
  {
    VisibleLine(header);
    assert TrimEnd(header) == header;
  }

  lemma BlankMeaning()
    ensures Meaning("") == Blank
  {
  }

  lemma FirstOccurrence(a: string, c: char, b: string)
    requires c !in a
    ensures IndexOf(a + [c] + b, c) == |a|
  {
    var s := a + [c] + b;
    assert s[|a|] == c;
    assert forall i :: 0 <= i < |a| ==> s[i] == a[i] && s[i] != c;
    assert c !in s[..|a|];
  }

  const ASSIGN := " = "

  lemma AssignmentUncommented(key: string, assign: string, value: string)
    requires CleanKey(key) && assign == ASSIGN
    ensures Uncommented(OUTSIDE, key + assign + value) == key + assign + Uncommented(OUTSIDE, value)
  {
    PlainText(key + assign);
    UncommentedSplit(OUTSIDE, key + assign, value);
  }

  lemma AssignmentTrimmed(key: string, rest: string)
    requires CleanKey(key)
    ensures Trim(key + ASSIGN + rest) == key + [' '] + ['='] + TrimEnd([' '] + rest)
  {
    var a, b := key + [' '] + ['='], [' '] + rest;
    assert key + ASSIGN + rest == a + b;
    TrimEndSplit(a, b);
    assert TrimEnd(a) == a;
    assert a + "" == a;
  }

  lemma SpaceTrimmed(rest: string)
    ensures Trim(TrimEnd([' '] + rest)) == Trim(rest)
  {
    TrimOfTrimEnd([' '] + rest);
    LeadingSpace([' '] + rest);
    assert ([' '] + rest)[1..] == rest;
  }

  lemma AssignmentSplit(key: string, tail: string)
    requires CleanKey(key)
    ensures var t := key + [' '] + ['='] + tail;
      && !IsSection(t) && IndexOf(t, '=') == |key| + 1
      && Trim(t[..|key| + 1]) == key && t[|key| + 2..] == tail
  {
    var t := key + [' '] + ['='] + tail;
    FirstOccurrence(key + [' '], '=', tail);
    assert t[..|key| + 1] == key + [' '];
    TrimEndSplit(key, [' ']);
    assert TrimEnd([' ']) == "";
    assert t[0] == key[0];
  }

  lemma AssignmentVisible(key: string, value: string)
    requires CleanKey(key)
    ensures Trim(key + ASSIGN + value) != ""
  {
    var line := key + ASSIGN + value;
    assert line[0] == key[0];
    VisibleLine(line);
  }

  /** The line the editor writes is read back as the pair it was written for. */
  lemma AssignmentMeaning(key: string, value: string)
    requires CleanKey(key)
    ensures Meaning(key + ASSIGN + value) == Pair(key, Normal(value))
  {
    var rest := Uncommented(OUTSIDE, value);
    AssignmentUncommented(key, ASSIGN, value);
    AssignmentTrimmed(key, rest);
    AssignmentSplit(key, TrimEnd([' '] + rest));
    SpaceTrimmed(rest);
    AssignmentVisible(key, value);
  }

  // Quoting

  function Replaced(s: string, c: char, with: string): string {
    if s == "" then "" else (if s[0] == c then with else [s[0]]) + Replaced(s[1..], c, with)
  }

  function Quote(value: string): string {
    "\"" + Replaced(Replaced(value, '\\', "\\\\"), '"', "\\\"") + "\""
  }

  function EscapedChar(c: char): string {
    if c == '\\' then "\\\\" else if c == '"' then "\\\"" else [c]
  }

  function Escaped(s: string): string {
    if s == "" then "" else EscapedChar(s[0]) + Escaped(s[1..])
  }

  lemma {:induction false} ReplacedSplit(a: string, b: string, c: char, with: string)
    ensures Replaced(a + b, c, with) == Replaced(a, c, with) + Replaced(b, c, with)
  {
    if a == "" {
      assert a + b == b;
    } else {
      assert (a + b)[1..] == a[1..] + b;
      ReplacedSplit(a[1..], b, c, with);
    }
  }

  /** The two replacements together escape each character once. */
  lemma {:induction false} QuoteEscapes(s: string)
    ensures Replaced(Replaced(s, '\\', "\\\\"), '"', "\\\"") == Escaped(s)
  {
    if s != "" {
      var head := if s[0] == '\\' then "\\\\" else [s[0]];
      ReplacedSplit(head, Replaced(s[1..], '\\', "\\\\"), '"', "\\\"");
      assert head[1..] == "" || head[1..] == "\\";
      assert Replaced(head, '"', "\\\"") == EscapedChar(s[0]);
      QuoteEscapes(s[1..]);
    }
  }

  /** The scan of an escaped character ends where it began: inside the string. */
  lemma EscapedCharInside(c: char)
    ensures Uncommented(IN_DOUBLE, EscapedChar(c)) == EscapedChar(c)
    ensures After(IN_DOUBLE, EscapedChar(c)) == IN_DOUBLE
  {
    if c == '\\' || c == '"' {
      TwoChars(IN_DOUBLE, '\\', c);
    } else {
      OneChar(IN_DOUBLE, c);
    }
  }

  lemma OneChar(q: Quotes, c: char)
    requires q.double
    ensures Uncommented(q, [c]) == [c] && After(q, [c]) == Step(q, c)
  {
    assert [c][1..] == "";
  }

  lemma TwoChars(q: Quotes, c: char, d: char)
    requires q.double && Step(q, c).double
    ensures Uncommented(q, [c, d]) == [c, d] && After(q, [c, d]) == Step(Step(q, c), d)
  {
    assert [c, d][1..] == [d];
    OneChar(Step(q, c), d);
  }

  lemma {:induction false} EscapedInside(s: string)
    ensures Uncommented(IN_DOUBLE, Escaped(s)) == Escaped(s)
    ensures After(IN_DOUBLE, Escaped(s)) == IN_DOUBLE
  {
    if s != "" {
      EscapedCharInside(s[0]);
      EscapedInside(s[1..]);
      UncommentedSplit(IN_DOUBLE, EscapedChar(s[0]), Escaped(s[1..]));
      AfterSplit(IN_DOUBLE, EscapedChar(s[0]), Escaped(s[1..]));
    }
  }

  lemma ClosedStringUncommented(body: string)
    requires Uncommented(IN_DOUBLE, body) == body && After(IN_DOUBLE, body) == IN_DOUBLE
    ensures Uncommented(OUTSIDE, ['"'] + (body + ['"'])) == ['"'] + (body + ['"'])
  {
    UncommentedSplit(IN_DOUBLE, body, ['"']);
    OneChar(IN_DOUBLE, '"');
    assert (['"'] + (body + ['"']))[1..] == body + ['"'];
    assert Step(OUTSIDE, '"') == IN_DOUBLE;
  }

  lemma QuoteShape(value: string)
    ensures Quote(value) == ['"'] + (Escaped(value) + ['"'])
  {
    QuoteEscapes(value);
  }

  /** A quoted value has no comment in it and nothing to trim. */
  lemma QuoteIsNormal(value: string)
    ensures Normal(Quote(value)) == Quote(value)
  {
    EscapedInside(value);
    ClosedStringUncommented(Escaped(value));
    QuoteShape(value);
    assert TrimEnd(Quote(value)) == Quote(value);
  }

  /** The characters between the quotes of a basic string, escapes resolved. */
  function Unescaped(s: string): string {
    if s == "" then ""
    else if s[0] == '\\' && |s| > 1 then [s[1]] + Unescaped(s[2..])
    else [s[0]] + Unescaped(s[1..])
  }

  function Unquoted(value: string): Option<string> {
    if |value| < 2 then None
    else if value[0] == '\'' && value[|value| - 1] == '\'' then Some(value[1..|value| - 1])
    else if value[0] != '"' || value[|value| - 1] != '"' then None
    else Some(Unescaped(value[1..|value| - 1]))
  }

  /** What is refused, and what a string in single quotes is. */
  lemma UnquotedExactly(value: string)
    ensures Unquoted(value) == None <==>
            || |value| < 2 || value[0] != value[|value| - 1] || (value[0] != '\'' && value[0] != '"')
    ensures |value| >= 2 && value[0] == value[|value| - 1] == '\'' ==> Unquoted(value) == Some(value[1..|value| - 1])
  {
  }

  /** Without a backslash a string in double quotes is what stands between them. */
  lemma {:induction false} PlainUnescaped(plain: string)
    requires '\\' !in plain
    ensures Unescaped(plain) == plain
  {
    if plain != "" {
      PlainUnescaped(plain[1..]);
    }
  }

  lemma {:induction false} UnescapedAfter(plain: string, rest: string)
    requires '\\' !in plain
    ensures Unescaped(plain + rest) == plain + Unescaped(rest)
  {
    if plain == "" {
      assert plain + rest == rest;
    } else {
      assert (plain + rest)[1..] == plain[1..] + rest;
      UnescapedAfter(plain[1..], rest);
    }
  }

  /** A backslash gives way to the character after it, but for one that ends the string. */
  lemma EscapeUnescaped(plain: string, c: char, rest: string)
    requires '\\' !in plain
    ensures Unescaped(plain + (['\\', c] + rest)) == plain + ([c] + Unescaped(rest))
    ensures Unescaped(plain + ['\\']) == plain + ['\\']
  {
    UnescapedAfter(plain, ['\\', c] + rest);
    UnescapedAfter(plain, ['\\']);
    assert (['\\', c] + rest)[2..] == rest && ['\\'][1..] == "";
  }

  lemma BasicUnquoted(body: string)
    ensures Unquoted(['"'] + body + ['"']) == Some(Unescaped(body))
    ensures Unquoted(['\''] + body + ['\'']) == Some(body)
  {
    assert (['"'] + body + ['"'])[1..|body| + 1] == body;
    assert (['\''] + body + ['\''])[1..|body| + 1] == body;
  }

  lemma UnescapedStep(s: string, at: nat)
    requires at < |s|
    ensures Unescaped(s[at..]) ==
            if s[at] == '\\' && at + 1 < |s| then [s[at + 1]] + Unescaped(s[at + 2..]) else [s[at]] + Unescaped(s[at + 1..])
  {
    assert s[at..][1..] == s[at + 1..];
    assert at + 1 < |s| ==> s[at..][2..] == s[at + 2..];
  }

  /** The text between the quotes, one escape at a time. */
  method Unescape(body: string) returns (built: string)
    ensures built == Unescaped(body)
  {
    built := "";
    var index := 0;
    while index < |body|
      invariant index <= |body|
      invariant Unescaped(body) == built + Unescaped(body[index..])
    {
      UnescapedStep(body, index);
      if body[index] == '\\' && index + 1 < |body| {
        index := index + 1;
      }
      built := built + [body[index]];
      index := index + 1;
    }
  }

  method TryUnquote(value: string) returns (r: Option<string>)
    ensures r == Unquoted(value)
  {
    if |value| < 2 {
      return None;
    }
    if value[0] == '\'' && value[|value| - 1] == '\'' {
      return Some(value[1..|value| - 1]);
    }
    if value[0] != '"' || value[|value| - 1] != '"' {
      return None;
    }
    var built := Unescape(value[1..|value| - 1]);
    return Some(built);
  }

  lemma {:induction false} UnescapedEscaped(s: string)
    ensures Unescaped(Escaped(s)) == s
  {
    if s != "" {
      var e, rest := EscapedChar(s[0]), Escaped(s[1..]);
      assert |e| == 2 ==> (e + rest)[2..] == rest;
      assert |e| == 1 ==> (e + rest)[1..] == rest;
      UnescapedEscaped(s[1..]);
    }
  }

  /** Quoting survives the whole reader: comment removal, trimming and unquoting. */
  lemma QuotingRoundTrip(value: string)
    ensures Unquoted(Normal(Quote(value))) == Some(value)
  {
    QuoteIsNormal(value);
    QuoteShape(value);
    UnescapedEscaped(value);
    assert Quote(value)[1..|Quote(value)| - 1] == Escaped(value);
  }
}
