/** The plan parser of the `sqitch-visualizer.loadSqitchPlanGraph` command:
    which lines of a Sqitch plan become changes, how one line is cut into a
    name, its requirements and a description, and the bracket scanner
    `getAllRequires`. */
module PlanParser {
  import opened JsStrings

  /** One change of the plan. `requirements` holds what the source calls
      `requires` (a keyword here). */
  datatype Change = Change(name: string, requirements: seq<string>, description: string)

  /** The one way the parse fails: a kept line with no token after the name
      makes the source call `startsWith` on `undefined`, which throws a
      TypeError and ends the whole command. */
  datatype Error = UndefinedToken(line: string)

  datatype Result<T> = Ok(value: T) | Err(error: Error)

  // ---------------------------------------------------------------------
  // Line selection
  // ---------------------------------------------------------------------

  /** The line filter: a line is kept when it trims to something and its raw
      text starts with neither `%` nor `@`. */
  predicate IsKept(line: string)
  {
    |Trim(line)| > 0 && !StartsWith(line, '%') && !StartsWith(line, '@')
  }

  /** The same filter in terms of characters: some character is not white
      space, and the very first character (not the first visible one) is
      neither `%` nor `@`. */
  lemma IsKeptIff(line: string)
    ensures IsKept(line) <==>
      (exists i :: 0 <= i < |line| && !IsWhiteSpace(line[i])) && line[0] != '%' && line[0] != '@'
  {
    TrimEmptyIffBlank(line);
  }

  /** `lines.filter(IsKept)`: the kept lines, in their original order. */
  function KeptLines(lines: seq<string>): (kept: seq<string>)
    ensures |kept| <= |lines|
  {
    if lines == [] then []
    else if IsKept(lines[0]) then [lines[0]] + KeptLines(lines[1..])
    else KeptLines(lines[1..])
  }

  /** A line is among the kept lines exactly when it is one of the lines and
      passes the filter. */
  lemma {:induction false} KeptLinesMembers(lines: seq<string>)
    ensures forall l :: l in KeptLines(lines) <==> l in lines && IsKept(l)
  {
    if lines != [] {
      KeptLinesMembers(lines[1..]);
      assert forall l :: l in lines <==> l == lines[0] || l in lines[1..];
    }
  }

  /** Filtering keeps the order: the kept lines of a concatenation are the kept
      lines of each part, one after the other. */
  lemma {:induction false} KeptLinesAppend(a: seq<string>, b: seq<string>)
    ensures KeptLines(a + b) == KeptLines(a) + KeptLines(b)
  {
    if a == [] {
      assert a + b == b;
    } else {
      assert (a + b)[0] == a[0];
      assert (a + b)[1..] == a[1..] + b;
      KeptLinesAppend(a[1..], b);
    }
  }

  // ---------------------------------------------------------------------
  // getAllRequires
  // ---------------------------------------------------------------------

  /** `t.replace("[", "").replace("]", "")`: drops the first `[` and then the
      first `]`, wherever they are in the token. */
  function Unbracket(t: string): string
  {
    RemoveFirst(RemoveFirst(t, '['), ']')
  }

  /** What the scanner copies for one token: the token unbracketed when it
      closes the group or starts with `[`, otherwise the token verbatim. */
  function RequireToken(t: string): string
  {
    if EndsWith(t, ']') || StartsWith(t, '[') then Unbracket(t) else t
  }

  /** A token that opens with `[`, closes its name with `]` and may carry a
      tail after it loses exactly those two brackets. */
  lemma UnbracketGroup(name: string, tail: string)
    requires '[' !in name && ']' !in name
    ensures Unbracket("[" + name + "]" + tail) == name + tail
  {
    assert "[" + name + "]" + tail == [] + ['['] + (name + [']'] + tail);
    RemoveFirstAround([], '[', name + [']'] + tail);
    RemoveFirstAround(name, ']', tail);
  }

  /** The position of the first token that ends with `]`, or the number of
      tokens when none does. */
  function FirstClosing(parts: seq<string>): (k: nat)
    ensures k <= |parts|
    ensures forall j :: 0 <= j < k ==> !EndsWith(parts[j], ']')
    ensures k < |parts| ==> EndsWith(parts[k], ']')
  {
    if parts == [] || EndsWith(parts[0], ']') then 0 else 1 + FirstClosing(parts[1..])
  }

  /** The requirement list `getAllRequires` builds, token by token: a closing
      token ends the list, every other token is copied and the scan goes on. */
  function RequiresOf(parts: seq<string>): seq<string>
  {
    if parts == [] then []
    else if EndsWith(parts[0], ']') then [Unbracket(parts[0])]
    else if StartsWith(parts[0], '[') then [Unbracket(parts[0])] + RequiresOf(parts[1..])
    else [parts[0]] + RequiresOf(parts[1..])
  }

  /** The shape of the requirement list: one entry per token up to and
      including the first token that ends with `]` (all tokens when none
      does), entry `i` made from token `i` alone. Tokens after the closing
      bracket never appear, so `[a] [b]` yields only `a`. */
  lemma {:induction false} RequiresShape(parts: seq<string>)
    ensures var k := FirstClosing(parts);
      |RequiresOf(parts)| == (if k < |parts| then k + 1 else |parts|)
    ensures forall i :: 0 <= i < |RequiresOf(parts)| ==> RequiresOf(parts)[i] == RequireToken(parts[i])
  {
    if parts != [] && !EndsWith(parts[0], ']') {
      RequiresShape(parts[1..]);
      var r := RequiresOf(parts);
      assert r[1..] == RequiresOf(parts[1..]);
      forall i | 1 <= i < |r| ensures r[i] == RequireToken(parts[i]) {
        assert r[i] == RequiresOf(parts[1..])[i - 1];
      }
    }
  }

  /** One step of the scan from token `i`. */
  lemma RequiresOfFrom(parts: seq<string>, i: nat)
    requires i < |parts|
    ensures RequiresOf(parts[i..]) ==
      if EndsWith(parts[i], ']') then [Unbracket(parts[i])]
      else [RequireToken(parts[i])] + RequiresOf(parts[i + 1..])
  {
    assert parts[i..][0] == parts[i] && parts[i..][1..] == parts[i + 1..];
  }

  /** `getAllRequires(parts)`: the scanning loop, with its `break` after the
      closing token and its `continue` after an opening one. */
  method GetAllRequires(parts: seq<string>) returns (reqs: seq<string>)
    ensures reqs == RequiresOf(parts)
  {
    reqs := [];
    for i := 0 to |parts|
      invariant reqs + RequiresOf(parts[i..]) == RequiresOf(parts)
    {
      RequiresOfFrom(parts, i);
      if EndsWith(parts[i], ']') {
        reqs := reqs + [Unbracket(parts[i])];
        break;
      }
      AppendStep(reqs, RequireToken(parts[i]), RequiresOf(parts[i + 1..]));
      if StartsWith(parts[i], '[') {
        reqs := reqs + [Unbracket(parts[i])];
        continue;
      }
      reqs := reqs + [parts[i]];
    }
  }

  lemma AppendStep<T>(acc: seq<T>, x: T, tail: seq<T>)
    ensures acc + [x] + tail == acc + ([x] + tail)
  {
  }

  // ---------------------------------------------------------------------
  // One line
  // ---------------------------------------------------------------------

  /** The description of the tokens after the name: the tokens after the
      first exact `#` token, joined by spaces, first carriage return removed.
      With no `#` token `indexOf` gives -1 and the slice starts at 0. */
  function DescriptionOf(rest: seq<string>): string
  {
    RemoveFirst(Join(rest[IndexOf(rest, "#") + 1..], " "), '\r')
  }

  /** The record built from the tokens of a line: the first token is the
      name (`parts.shift()`); requirements are scanned when the next token
      starts with `[`; the description comes from the tokens after the name. */
  function ChangeOf(parts: seq<string>): Change
    requires |parts| >= 2
  {
    var rest := parts[1..];
    Change(parts[0], if StartsWith(rest[0], '[') then RequiresOf(rest) else [], DescriptionOf(rest))
  }

  /** The map callback for one kept line: split on spaces and build the
      change; with no token after the name, reading `parts[0]` gives
      `undefined` and the call throws. */
  function ParseLine(line: string): (r: Result<Change>)
    ensures r.Ok? <==> ' ' in line
    ensures r.Err? ==> r.error == UndefinedToken(line)
  {
    var parts := Split(line, ' ');
    SplitCount(line, ' ');
    if |parts| < 2 then Err(UndefinedToken(line)) else Ok(ChangeOf(parts))
  }

  /** A line with a space parses from its tokens: the text before the first
      space is the name token, the pieces of the text after it the rest. */
  lemma ParseLineTokens(line: string)
    requires ' ' in line
    ensures var k := IndexOf(line, ' ');
      ParseLine(line) == Ok(ChangeOf([line[..k]] + Split(line[k + 1..], ' ')))
  {
    SplitAtFirst(line, ' ');
  }

  /** The change built from a name token followed by further tokens. */
  lemma ChangeOfCons(name: string, rest: seq<string>)
    requires |rest| >= 1
    ensures ChangeOf([name] + rest) ==
      Change(name, if StartsWith(rest[0], '[') then RequiresOf(rest) else [], DescriptionOf(rest))
  {
    assert ([name] + rest)[1..] == rest;
  }

  /** The name is everything before the first space of the line, so it is
      empty when the line starts with a space and never holds a space. */
  lemma ParseLineName(line: string)
    requires ' ' in line
    ensures var k := IndexOf(line, ' ');
      ParseLine(line).value.name == line[..k] && ' ' !in ParseLine(line).value.name
  {
    SplitAtFirst(line, ' ');
  }

  /** Requirements are scanned only when the text after the first space
      starts with `[`; the scan then runs over all tokens of that text. */
  lemma ParseLineRequirements(line: string)
    requires ' ' in line
    ensures var after := line[IndexOf(line, ' ') + 1..];
      ParseLine(line).value.requirements ==
        if StartsWith(after, '[') then RequiresOf(Split(after, ' ')) else []
  {
    var after := line[IndexOf(line, ' ') + 1..];
    SplitAtFirst(line, ' ');
    SplitPieces(after, ' ');
    assert Split(line, ' ')[1..] == Split(after, ' ');
  }

  /** With no `#` token the description is the whole text after the first
      space, requirement group included, first carriage return removed. */
  lemma ParseLineDescriptionWithoutHash(line: string)
    requires ' ' in line
    requires "#" !in Split(line[IndexOf(line, ' ') + 1..], ' ')
    ensures ParseLine(line).value.description == RemoveFirst(line[IndexOf(line, ' ') + 1..], '\r')
  {
    var k := IndexOf(line, ' ');
    var after := line[k + 1..];
    var tokens := Split(after, ' ');
    DescriptionWithoutHash(tokens);
    JoinSplit(after, ' ');
    ParseLineTokens(line);
    ChangeOfCons(line[..k], tokens);
  }

  /** The description when no token is `#`: all tokens, joined. */
  lemma DescriptionWithoutHash(rest: seq<string>)
    requires "#" !in rest
    ensures DescriptionOf(rest) == RemoveFirst(Join(rest, " "), '\r')
  {
    assert rest[0..] == rest;
  }

  /** Otherwise the description is the tokens after the first `#` token,
      joined by single spaces, first carriage return removed. */
  lemma ParseLineDescriptionAfterHash(line: string, j: nat)
    requires ' ' in line
    requires var tokens := Split(line[IndexOf(line, ' ') + 1..], ' ');
      j < |tokens| && tokens[j] == "#" && "#" !in tokens[..j]
    ensures var tokens := Split(line[IndexOf(line, ' ') + 1..], ' ');
      ParseLine(line).value.description == RemoveFirst(Join(tokens[j + 1..], " "), '\r')
  {
    var k := IndexOf(line, ' ');
    var tokens := Split(line[k + 1..], ' ');
    DescriptionAfterHash(tokens, j);
    ParseLineTokens(line);
    ChangeOfCons(line[..k], tokens);
  }

  /** The description when the first `#` token is token `j`. */
  lemma DescriptionAfterHash(rest: seq<string>, j: nat)
    requires j < |rest| && rest[j] == "#" && "#" !in rest[..j]
    ensures DescriptionOf(rest) == RemoveFirst(Join(rest[j + 1..], " "), '\r')
  {
  }

  /** A line made of space-free tokens joined by single spaces parses from
      exactly those tokens: the first is the name, the rest feed the
      requirement scan and the description. */
  lemma ParseTokens(tokens: seq<string>)
    requires |tokens| >= 2
    requires forall i :: 0 <= i < |tokens| ==> ' ' !in tokens[i]
    ensures ParseLine(Join(tokens, " ")) == Ok(ChangeOf(tokens))
  {
    SplitJoin(tokens, ' ');
  }

  /** The characters of every name and requirement come from the line, so a
      character absent from the line is absent from them too. */
  lemma ParseLineWithin(line: string, x: char)
    requires ' ' in line && x !in line
    ensures var c := ParseLine(line).value;
      x !in c.name && forall j :: 0 <= j < |c.requirements| ==> x !in c.requirements[j]
  {
    var parts := Split(line, ' ');
    var rest := parts[1..];
    SplitPieces(line, ' ');
    RequiresShape(rest);
    assert forall i :: 0 <= i < |rest| ==> rest[i] == parts[i + 1];
    forall i | 0 <= i < |rest| ensures x !in RequireToken(rest[i]) {
      RemoveFirstAt(rest[i], '[');
      RemoveFirstAt(RemoveFirst(rest[i], '['), ']');
    }
  }

  // ---------------------------------------------------------------------
  // The whole plan
  // ---------------------------------------------------------------------

  /** Line `i` is the first line without a token after its name. */
  predicate FirstFailing(lines: seq<string>, i: int)
  {
    0 <= i < |lines| && ' ' !in lines[i] && forall j :: 0 <= j < i ==> ' ' in lines[j]
  }

  /** `lines.map(ParseLine)`: one change per line, in order; the first line
      without a token after its name throws, and nothing is returned. */
  function ParseLines(lines: seq<string>): (r: Result<seq<Change>>)
    ensures r.Ok? <==> forall i :: 0 <= i < |lines| ==> ' ' in lines[i]
    ensures r.Ok? ==> |r.value| == |lines|
    ensures r.Err? ==> exists i :: FirstFailing(lines, i) && r.error == UndefinedToken(lines[i])
  {
    if lines == [] then Ok([])
    else
      var head := ParseLine(lines[0]);
      if head.Err? then
        assert FirstFailing(lines, 0);
        Err(head.error)
      else
        var tail := ParseLines(lines[1..]);
        if tail.Err? then
          ghost var i :| FirstFailing(lines[1..], i) && tail.error == UndefinedToken(lines[1..][i]);
          assert FirstFailing(lines, i + 1);
          tail
        else
          assert forall i :: 1 <= i < |lines| ==> lines[i] == lines[1..][i - 1];
          Ok([head.value] + tail.value)
  }

  /** When every line parses, change `i` is the parse of line `i`. */
  lemma {:induction false} ParseLinesPointwise(lines: seq<string>)
    requires ParseLines(lines).Ok?
    ensures forall i :: 0 <= i < |lines| ==> ParseLine(lines[i]) == Ok(ParseLines(lines).value[i])
  {
    if lines != [] {
      var tail := lines[1..];
      ParseLinesPointwise(tail);
      var cs, ts := ParseLines(lines).value, ParseLines(tail).value;
      assert cs == [ParseLine(lines[0]).value] + ts;
      forall i | 0 <= i < |lines| ensures ParseLine(lines[i]) == Ok(cs[i]) {
        if i > 0 {
          assert lines[i] == tail[i - 1] && cs[i] == ts[i - 1];
        }
      }
    }
  }

  /** The parse of a whole plan text: split into lines on `\n`, keep the
      selected lines, parse each. */
  function ParsePlan(text: string): Result<seq<Change>>
  {
    ParseLines(KeptLines(Split(text, '\n')))
  }

  /** No name and no requirement of a parsed plan contains a line break,
      because every kept line comes out of the split on `\n`. */
  lemma ParsePlanSingleLine(text: string)
    requires ParsePlan(text).Ok?
    ensures var cs := ParsePlan(text).value;
      forall i :: 0 <= i < |cs| ==>
        && '\n' !in cs[i].name
        && forall j :: 0 <= j < |cs[i].requirements| ==> '\n' !in cs[i].requirements[j]
  {
    var lines := KeptLines(Split(text, '\n'));
    var cs := ParsePlan(text).value;
    KeptLinesMembers(Split(text, '\n'));
    SplitPieces(text, '\n');
    ParseLinesPointwise(lines);
    forall i | 0 <= i < |cs|
      ensures '\n' !in cs[i].name &&
        forall j :: 0 <= j < |cs[i].requirements| ==> '\n' !in cs[i].requirements[j]
    {
      assert lines[i] in lines;
      ParseLineWithin(lines[i], '\n');
    }
  }
}
