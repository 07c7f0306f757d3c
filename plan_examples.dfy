/** What the line parser makes of typical and unusual plan lines, stated for
    every choice of names and note words. Each lemma is about the tokens of a
    line; `PlanParser.ParseTokens` carries it over to the line itself, the
    tokens joined by single spaces. */
module PlanExamples {
  import opened JsStrings
  import opened PlanParser

  /** A name fit for a requirement group: no space, no bracket, no carriage return. */
  predicate PlainName(s: string)
  {
    ' ' !in s && '[' !in s && ']' !in s && '\r' !in s
  }

  /** A word of a note: no space and no carriage return. */
  predicate PlainWord(s: string)
  {
    ' ' !in s && '\r' !in s
  }

  /** A closed group `[req]` as the first token after the name yields `req`
      alone and ends the scan, whatever follows. */
  lemma ClosedGroupRequires(req: string, later: seq<string>)
    requires PlainName(req)
    ensures RequiresOf(["[" + req + "]"] + later) == [req]
  {
    var group := "[" + req + "]";
    UnbracketGroup(req, "");
    assert group + "" == group && req + "" == req;
    assert (["[" + req + "]"] + later)[0] == group;
  }

  /** An unclosed group `[a` followed by words that neither open nor close a
      group: the scan runs to the end of the line and every word, `#` and
      note words included, is a requirement. */
  lemma UnclosedGroupRequires(a: string, words: seq<string>)
    requires PlainName(a)
    requires forall i :: 0 <= i < |words| ==> !StartsWith(words[i], '[') && !EndsWith(words[i], ']')
    ensures RequiresOf(["[" + a] + words) == [a] + words
  {
    OpeningToken(a);
    assert (["[" + a] + words)[0] == "[" + a && (["[" + a] + words)[1..] == words;
    BareWordsRequires(words);
  }

  /** `[a` opens a group without closing it and unbrackets to `a`. */
  lemma OpeningToken(a: string)
    requires PlainName(a)
    ensures StartsWith("[" + a, '[') && !EndsWith("[" + a, ']') && Unbracket("[" + a) == a
  {
    var open := "[" + a;
    assert !EndsWith(open, ']') && StartsWith(open, '[');
    assert open == [] + ['['] + a;
    RemoveFirstAround([], '[', a);
    assert [] + a == a;
  }

  /** `z]` closes a group and unbrackets to `z`. */
  lemma ClosingToken(z: string)
    requires PlainName(z)
    ensures EndsWith(z + "]", ']') && Unbracket(z + "]") == z
  {
    var close := z + "]";
    assert close == z + [']'] + [];
    RemoveFirstAround(z, ']', []);
    assert z + [] == z;
  }

  /** Tokens that neither open nor close a group are each a requirement, verbatim. */
  lemma {:induction false} BareWordsRequires(words: seq<string>)
    requires forall i :: 0 <= i < |words| ==> !StartsWith(words[i], '[') && !EndsWith(words[i], ']')
    ensures RequiresOf(words) == words
  {
    if words != [] {
      BareWordsRequires(words[1..]);
    }
  }

  /** A group spread over several tokens that does close, as in
      `name [a m1 m2 z] 2024-01-01T00:00:00Z planner # note`: the opening
      token loses its `[`, the middle tokens are copied, the closing token
      loses its `]`, and the scan stops there. */
  lemma ClosedSpreadGroupRequires(a: string, mids: seq<string>, z: string, later: seq<string>)
    requires PlainName(a) && PlainName(z)
    requires forall i :: 0 <= i < |mids| ==> !StartsWith(mids[i], '[') && !EndsWith(mids[i], ']')
    ensures RequiresOf(["[" + a] + mids + [z + "]"] + later) == [a] + mids + [z]
  {
    var open, close := "[" + a, z + "]";
    OpeningToken(a);
    ClosingToken(z);
    var parts := [open] + mids + [close] + later;
    assert parts[0] == open && parts[1..] == mids + [close] + later;
    WordsThenClosing(mids, close, later);
  }

  /** Plain tokens followed by a closing token: each plain token is copied and
      the closing token, unbracketed, ends the list. */
  lemma {:induction false} WordsThenClosing(words: seq<string>, close: string, later: seq<string>)
    requires forall i :: 0 <= i < |words| ==> !StartsWith(words[i], '[') && !EndsWith(words[i], ']')
    requires EndsWith(close, ']')
    ensures RequiresOf(words + [close] + later) == words + [Unbracket(close)]
  {
    var parts := words + [close] + later;
    if words == [] {
      assert parts[0] == close;
    } else {
      assert parts[0] == words[0] && parts[1..] == words[1..] + [close] + later;
      WordsThenClosing(words[1..], close, later);
      assert words == [words[0]] + words[1..];
    }
  }

  /** The words after a `#` token that follows `#`-free tokens, joined by
      single spaces, are the description, provided they carry no carriage
      return. */
  lemma NoteDescription(before: seq<string>, words: seq<string>)
    requires "#" !in before
    requires forall i :: 0 <= i < |words| ==> PlainWord(words[i])
    ensures DescriptionOf(before + (["#"] + words)) == Join(words, " ")
  {
    var rest := before + (["#"] + words);
    AroundMarker(before, "#", words);
    DescriptionAfterHash(rest, |before|);
    JoinWithout(words, " ", '\r');
  }

  /** `name [req] # w1 w2 ...`: one requirement, and the note words joined. */
  lemma RequirementAndNote(name: string, req: string, words: seq<string>)
    requires PlainName(req)
    requires forall i :: 0 <= i < |words| ==> PlainWord(words[i])
    ensures ChangeOf([name, "[" + req + "]", "#"] + words) == Change(name, [req], Join(words, " "))
  {
    var group := "[" + req + "]";
    ConsThree(name, group, "#", words);
    ChangeOfCons(name, [group] + (["#"] + words));
    ClosedGroupRequires(req, ["#"] + words);
    NoteDescription([group], words);
  }

  /** `name # w1 w2 ...`: no requirement, and the note words joined. */
  lemma NoteOnly(name: string, words: seq<string>)
    requires forall i :: 0 <= i < |words| ==> PlainWord(words[i])
    ensures ChangeOf([name, "#"] + words) == Change(name, [], Join(words, " "))
  {
    ConsTwo(name, "#", words);
    ChangeOfCons(name, ["#"] + words);
    NoteDescription([], words);
    NilAppend(["#"] + words);
  }

  /** `name [req]` with no `#` token: the description is the bracket group
      itself, not the empty string. */
  lemma WithoutNote(name: string, req: string)
    requires PlainName(req)
    ensures ChangeOf([name, "[" + req + "]"]) == Change(name, [req], "[" + req + "]")
  {
    var group := "[" + req + "]";
    ConsTwo(name, group, []);
    ChangeOfCons(name, [group] + []);
    ClosedGroupRequires(req, []);
    NilAppend([group]);
    DescriptionWithoutNote(group);
  }

  /** A lone token without `#` is its own description when it has no
      carriage return. */
  lemma DescriptionWithoutNote(token: string)
    requires token != "#" && '\r' !in token
    ensures DescriptionOf([token] + []) == token
  {
    assert [token] + [] == [token];
    assert [token][0..] == [token];
    assert Join([token], " ") == token;
  }

  /** `name [a] [b]`: only the first group counts, `b` is not a requirement. */
  lemma TwoGroups(name: string, a: string, b: string)
    requires PlainName(a)
    ensures ChangeOf([name, "[" + a + "]", "[" + b + "]"]).requirements == [a]
  {
    var groupA, groupB := "[" + a + "]", "[" + b + "]";
    ConsThree(name, groupA, groupB, []);
    ChangeOfCons(name, [groupA] + ([groupB] + []));
    ClosedGroupRequires(a, [groupB] + []);
  }

  /** `name [a w1 w2 ...` with no closing bracket: every later token is a
      requirement. */
  lemma UnclosedGroup(name: string, a: string, words: seq<string>)
    requires PlainName(a)
    requires forall i :: 0 <= i < |words| ==> !StartsWith(words[i], '[') && !EndsWith(words[i], ']')
    ensures ChangeOf([name, "[" + a] + words).requirements == [a] + words
  {
    ConsTwo(name, "[" + a, words);
    ChangeOfCons(name, ["[" + a] + words);
    UnclosedGroupRequires(a, words);
  }

  /** `name [req]\r`, a CRLF line without a note: the carriage return stays
      on the last token, so `[req]\r` does not close the group; the
      requirement keeps the `\r` and the description loses it. */
  lemma CarriageReturn(name: string, req: string)
    requires PlainName(req)
    ensures ChangeOf([name, "[" + req + "]\r"]) == Change(name, [req + "\r"], "[" + req + "]")
  {
    var token := "[" + req + "]\r";
    ConsTwo(name, token, []);
    ChangeOfCons(name, [token] + []);
    NilAppend([token]);
    CarriageReturnToken(req);
  }

  /** The token `[req]\r` opens a group it does not close: it yields `req\r`,
      and as a whole note it reads `[req]`. */
  lemma CarriageReturnToken(req: string)
    requires PlainName(req)
    ensures var token := "[" + req + "]\r";
      RequiresOf([token]) == [req + "\r"] && DescriptionOf([token]) == "[" + req + "]"
  {
    var group := "[" + req + "]";
    var token := "[" + req + "]\r";
    assert token == group + "\r";
    assert !EndsWith(token, ']');
    UnbracketGroup(req, "\r");
    assert RequiresOf([token]) == [req + "\r"];
    assert [token][0..] == [token];
    assert Join([token], " ") == token;
    assert token == group + ['\r'] + [];
    RemoveFirstAround(group, '\r', []);
    assert group + [] == group;
  }

  lemma ConsTwo<T>(x: T, y: T, ws: seq<T>)
    ensures [x, y] + ws == [x] + ([y] + ws)
  {
  }

  lemma ConsThree<T>(x: T, y: T, z: T, ws: seq<T>)
    ensures [x, y, z] + ws == [x] + ([y] + ([z] + ws))
  {
  }

  lemma AroundMarker<T>(before: seq<T>, x: T, after: seq<T>)
    ensures var s := before + ([x] + after);
      |before| < |s| && s[|before|] == x && s[..|before|] == before && s[|before| + 1..] == after
  {
  }

  lemma NilAppend<T>(ws: seq<T>)
    ensures [] + ws == ws
  {
  }

  /** Directives and blank lines are dropped; a line indented before `%` is kept. */
  lemma LineSelection()
    ensures !IsKept("%project=x") && !IsKept("@v1 x")
    ensures !IsKept(" \t\r")
    ensures IsKept(" %x")
  {
    IsKeptIff(" \t\r");
    IsKeptIff(" %x");
    assert !IsWhiteSpace(" %x"[1]);
  }
}
