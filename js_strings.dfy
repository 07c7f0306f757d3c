/** Models of the JavaScript string and array built-ins that the plan pipeline
    relies on: `String.prototype.split`, `trim`, `startsWith`, `endsWith` and
    `replace`, and `Array.prototype.join` and `indexOf`. Strings are sequences
    of characters; every separator and pattern the pipeline passes is a single
    character, so the models take a `char` where JavaScript takes a string. */
module JsStrings {

  /** `s.split(sep)`: the pieces of `s` between occurrences of `sep`, in order.
      Like JavaScript, splitting the empty string gives `[""]`, so there is
      always at least one piece, and more than one exactly when `sep` occurs. */
  function Split(s: string, sep: char): (parts: seq<string>)
    ensures |parts| >= 1
  {
    if s == [] then [""]
    else
      var rest := Split(s[1..], sep);
      if s[0] == sep then [""] + rest
      else [[s[0]] + rest[0]] + rest[1..]
  }

  /** No piece of a split contains the separator, every character of a piece
      comes from the string, and the first piece is empty exactly when the
      string is empty or starts with the separator. */
  lemma {:induction false} SplitPieces(s: string, sep: char)
    ensures var parts := Split(s, sep);
      && (forall i :: 0 <= i < |parts| ==> sep !in parts[i])
      && (forall i, x :: 0 <= i < |parts| && x in parts[i] ==> x in s)
      && (s != [] && s[0] != sep ==> parts[0] != [] && parts[0][0] == s[0])
      && (s == [] || s[0] == sep ==> parts[0] == [])
  {
    if s != [] {
      SplitPieces(s[1..], sep);
      var rest := Split(s[1..], sep);
      var parts := Split(s, sep);
      assert forall x :: x in s[1..] ==> x in s;
      if s[0] == sep {
        assert forall i :: 1 <= i < |parts| ==> parts[i] == rest[i - 1];
      } else {
        assert forall i :: 1 <= i < |parts| ==> parts[i] == rest[i];
      }
    }
  }

  /** There is more than one piece exactly when the separator occurs. */
  lemma {:induction false} SplitCount(s: string, sep: char)
    ensures |Split(s, sep)| > 1 <==> sep in s
  {
    if s != [] {
      SplitCount(s[1..], sep);
      assert sep in s <==> s[0] == sep || sep in s[1..];
    }
  }

  /** `parts.join(sep)`: the parts with `sep` between neighbours; `""` for no parts. */
  function Join(parts: seq<string>, sep: string): string
  {
    if |parts| == 0 then ""
    else if |parts| == 1 then parts[0]
    else parts[0] + sep + Join(parts[1..], sep)
  }

  /** `xs.indexOf(x)`: the first position holding `x`, or -1 when there is none. */
  function IndexOf<T(==)>(xs: seq<T>, x: T): (k: int)
    ensures k == -1 <==> x !in xs
    ensures k != -1 ==> 0 <= k < |xs| && xs[k] == x && x !in xs[..k]
  {
    if xs == [] then -1
    else if xs[0] == x then 0
    else
      var k := IndexOf(xs[1..], x);
      assert xs[1..] == xs[..|xs|][1..];
      if k == -1 then -1
      else
        assert xs[..k + 1] == [xs[0]] + xs[1..][..k];
        k + 1
  }

  /** `s.replace(c, "")` with a one-character string pattern: JavaScript
      replaces only the first occurrence, so this removes the first `c`. */
  function RemoveFirst(s: string, c: char): (r: string)
    ensures c !in s ==> r == s
    ensures |r| == if c in s then |s| - 1 else |s|
  {
    if s == [] then []
    else if s[0] == c then s[1..]
    else [s[0]] + RemoveFirst(s[1..], c)
  }

  /** Exactly the first occurrence goes: what precedes it and what follows it
      are kept, and nothing new appears. */
  lemma {:induction false} RemoveFirstAt(s: string, c: char)
    ensures c in s ==> RemoveFirst(s, c) == s[..IndexOf(s, c)] + s[IndexOf(s, c) + 1..]
    ensures forall x :: x in RemoveFirst(s, c) ==> x in s
  {
    if s != [] && s[0] != c {
      RemoveFirstAt(s[1..], c);
      assert forall x :: x in s[1..] ==> x in s;
      if c in s {
        assert s[..IndexOf(s, c)] == [s[0]] + s[1..][..IndexOf(s[1..], c)];
      }
    }
  }

  /** Removing the first `c` from `a + [c] + b`, where `a` has no `c`, leaves
      `a + b`. */
  lemma {:induction false} RemoveFirstAround(a: string, c: char, b: string)
    requires c !in a
    ensures RemoveFirst(a + [c] + b, c) == a + b
  {
    if a == [] {
      assert a + [c] + b == [c] + b;
      RemoveFirstCons(c, b, c);
    } else {
      var x, t := a[0], a[1..];
      ConsSplit(a, [c], b);
      RemoveFirstAround(t, c, b);
      RemoveFirstCons(x, t + [c] + b, c);
    }
  }

  /** Removing from a string that starts with `x`. */
  lemma RemoveFirstCons(x: char, t: string, c: char)
    ensures RemoveFirst([x] + t, c) == if x == c then t else [x] + RemoveFirst(t, c)
  {
    assert ([x] + t)[0] == x && ([x] + t)[1..] == t;
  }

  lemma ConsSplit<T>(a: seq<T>, m: seq<T>, b: seq<T>)
    requires |a| > 0
    ensures a + m + b == [a[0]] + (a[1..] + m + b) && a + b == [a[0]] + (a[1..] + b)
  {
    assert a == [a[0]] + a[1..];
  }

  /** `s.startsWith(c)` for a one-character prefix. */
  predicate StartsWith(s: string, c: char)
  {
    |s| > 0 && s[0] == c
  }

  /** `s.endsWith(c)` for a one-character suffix. */
  predicate EndsWith(s: string, c: char)
  {
    |s| > 0 && s[|s| - 1] == c
  }

  /** The characters `trim()` removes: the ECMAScript WhiteSpace and
      LineTerminator code points. */
  predicate IsWhiteSpace(c: char)
  {
    c == '\t' || c == '\n' || c == '\U{000B}' || c == '\U{000C}' || c == '\r' || c == ' '
    || c == '\U{00A0}' || c == '\U{1680}' || ('\U{2000}' <= c <= '\U{200A}')
    || c == '\U{2028}' || c == '\U{2029}' || c == '\U{202F}' || c == '\U{205F}'
    || c == '\U{3000}' || c == '\U{FEFF}'
  }

  /** `s` without its leading white space. */
  function TrimStart(s: string): (r: string)
    ensures |r| <= |s|
  {
    if s != [] && IsWhiteSpace(s[0]) then TrimStart(s[1..]) else s
  }

  /** `s` without its trailing white space. */
  function TrimEnd(s: string): (r: string)
    ensures |r| <= |s|
  {
    if s != [] && IsWhiteSpace(s[|s| - 1]) then TrimEnd(s[..|s| - 1]) else s
  }

  /** `s.trim()`. */
  function Trim(s: string): string
  {
    TrimEnd(TrimStart(s))
  }

  /** TrimStart gives the longest suffix that does not start with white space. */
  lemma {:induction false} TrimStartSuffix(s: string)
    ensures var r := TrimStart(s);
      && r == s[|s| - |r|..]
      && (forall i :: 0 <= i < |s| - |r| ==> IsWhiteSpace(s[i]))
      && (r == [] || !IsWhiteSpace(r[0]))
  {
    if s != [] && IsWhiteSpace(s[0]) {
      TrimStartSuffix(s[1..]);
    }
  }

  /** TrimEnd gives the longest prefix that does not end with white space. */
  lemma {:induction false} TrimEndPrefix(s: string)
    ensures var r := TrimEnd(s);
      && r == s[..|r|]
      && (forall i :: |r| <= i < |s| ==> IsWhiteSpace(s[i]))
      && (r == [] || !IsWhiteSpace(r[|r| - 1]))
  {
    if s != [] && IsWhiteSpace(s[|s| - 1]) {
      TrimEndPrefix(s[..|s| - 1]);
    }
  }

  /** A string trims to nothing exactly when every character of it is white space. */
  lemma TrimEmptyIffBlank(s: string)
    ensures |Trim(s)| == 0 <==> forall i :: 0 <= i < |s| ==> IsWhiteSpace(s[i])
  {
    var t := TrimStart(s);
    TrimStartSuffix(s);
    TrimEndPrefix(t);
    if !forall i :: 0 <= i < |s| ==> IsWhiteSpace(s[i]) {
      var i :| 0 <= i < |s| && !IsWhiteSpace(s[i]);
      assert i >= |s| - |t|;
      assert t != [] && !IsWhiteSpace(t[0]);
    }
  }

  /** A character that is in neither the pieces nor the separator is not in
      their join. */
  lemma {:induction false} JoinWithout(parts: seq<string>, sep: string, x: char)
    requires x !in sep
    requires forall i :: 0 <= i < |parts| ==> x !in parts[i]
    ensures x !in Join(parts, sep)
  {
    if |parts| > 1 {
      JoinWithout(parts[1..], sep, x);
    }
  }

  /** The round trip one way: joining the pieces of a split with the separator
      gives back the original string. */
  lemma {:induction false} JoinSplit(s: string, sep: char)
    ensures Join(Split(s, sep), [sep]) == s
  {
    if s != [] {
      var rest := Split(s[1..], sep);
      JoinSplit(s[1..], sep);
      if s[0] == sep {
        assert Split(s, sep) == [""] + rest;
        assert ([""] + rest)[1..] == rest;
      } else if |rest| == 1 {
        assert Split(s, sep) == [[s[0]] + rest[0]];
        assert s == [s[0]] + s[1..];
      } else {
        var parts := Split(s, sep);
        assert parts == [[s[0]] + rest[0]] + rest[1..];
        assert parts[1..] == rest[1..];
        assert Join(rest, [sep]) == rest[0] + [sep] + Join(rest[1..], [sep]);
        assert s == [s[0]] + s[1..];
      }
    }
  }

  /** A string without the separator splits into itself alone. */
  lemma {:induction false} SplitWithoutSeparator(s: string, sep: char)
    requires sep !in s
    ensures Split(s, sep) == [s]
  {
    if s != [] {
      SplitWithoutSeparator(s[1..], sep);
      assert s == [s[0]] + s[1..];
    }
  }

  /** Splitting around one separator splits each side independently. */
  lemma {:induction false} SplitAround(a: string, sep: char, b: string)
    ensures Split(a + [sep] + b, sep) == Split(a, sep) + Split(b, sep)
  {
    if a == [] {
      assert a + [sep] + b == [sep] + b;
      SplitCons(sep, b, sep);
    } else {
      var c, t := a[0], a[1..];
      assert a == [c] + t;
      assert a + [sep] + b == [c] + (t + [sep] + b);
      SplitAround(t, sep, b);
      SplitAroundStep(c, t, sep, b);
    }
  }

  /** The inductive step of `SplitAround`: one more character in front. */
  lemma SplitAroundStep(c: char, t: string, sep: char, b: string)
    requires Split(t + [sep] + b, sep) == Split(t, sep) + Split(b, sep)
    ensures Split([c] + (t + [sep] + b), sep) == Split([c] + t, sep) + Split(b, sep)
  {
    SplitCons(c, t + [sep] + b, sep);
    SplitCons(c, t, sep);
    ConsPieces(c, sep, Split(t, sep), Split(b, sep));
  }

  /** The pieces of `[c] + s` as `SplitCons` builds them, when the pieces of
      `s` are `p + q`. */
  lemma ConsPieces(c: char, sep: char, p: seq<string>, q: seq<string>)
    requires |p| >= 1
    ensures (if c == sep then [""] + (p + q) else [[c] + (p + q)[0]] + (p + q)[1..]) ==
      (if c == sep then [""] + p else [[c] + p[0]] + p[1..]) + q
  {
    if c != sep {
      assert (p + q)[1..] == p[1..] + q;
    }
  }

  /** Splitting a string that starts with `c`: a separator closes an empty
      first piece; any other character joins the first piece of the rest. */
  lemma SplitCons(c: char, t: string, sep: char)
    ensures Split([c] + t, sep) ==
      if c == sep then [""] + Split(t, sep) else [[c] + Split(t, sep)[0]] + Split(t, sep)[1..]
  {
    assert ([c] + t)[0] == c && ([c] + t)[1..] == t;
  }

  /** The first piece of a split is the text before the first separator, and
      the other pieces are the split of the text after it. */
  lemma SplitAtFirst(s: string, sep: char)
    requires sep in s
    ensures var k := IndexOf(s, sep);
      Split(s, sep) == [s[..k]] + Split(s[k + 1..], sep)
  {
    var k := IndexOf(s, sep);
    assert s == s[..k] + [sep] + s[k + 1..];
    SplitAround(s[..k], sep, s[k + 1..]);
    SplitWithoutSeparator(s[..k], sep);
  }

  /** The round trip the other way: a non-empty list of separator-free pieces,
      joined with the separator, splits back into the same pieces. */
  lemma {:induction false} SplitJoin(parts: seq<string>, sep: char)
    requires |parts| >= 1
    requires forall i :: 0 <= i < |parts| ==> sep !in parts[i]
    ensures Split(Join(parts, [sep]), sep) == parts
  {
    if |parts| == 1 {
      SplitWithoutSeparator(parts[0], sep);
    } else {
      SplitJoin(parts[1..], sep);
      SplitAround(parts[0], sep, Join(parts[1..], [sep]));
      SplitWithoutSeparator(parts[0], sep);
    }
  }
}
