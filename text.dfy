/** String operations the two scripts borrow from Python's `str`, restricted
    to ASCII: whitespace, `strip`, `replace` of one character, `split` on one
    character, `join`, `splitlines`, `lower` and substring containment. */
module Text {

  /** Whitespace as `str.isspace` sees it, restricted to ASCII: horizontal
      tab to carriage return (9..13), the four separators 28..31 and the
      space (32). */
  predicate IsSpace(c: char) {
    9 <= c as int <= 13 || 28 <= c as int <= 32
  }

  /** Line boundaries as `str.splitlines` sees them, restricted to ASCII:
      line feed, vertical tab, form feed, carriage return and the file,
      group and record separators. (`\r\n` is handled in SplitLines.) */
  predicate IsLineBreak(c: char) {
    10 <= c as int <= 13 || 28 <= c as int <= 30
  }

  /** `str.lstrip()`: drop leading whitespace. */
  function TrimStart(s: string): (r: string)
    ensures |r| <= |s|
    decreases |s|
  {
    if s != [] && IsSpace(s[0]) then TrimStart(s[1..]) else s
  }

  /** lstrip keeps the longest suffix that does not start with whitespace. */
  lemma {:induction false} TrimStartSpec(s: string)
    ensures var r := TrimStart(s);
      && r == s[|s| - |r|..]
      && (r == [] || !IsSpace(r[0]))
      && (forall i :: 0 <= i < |s| - |r| ==> IsSpace(s[i]))
    decreases |s|
  {
    if s != [] && IsSpace(s[0]) {
      TrimStartSpec(s[1..]);
    }
  }

  /** `str.rstrip()`: drop trailing whitespace. */
  function TrimEnd(s: string): (r: string)
    ensures |r| <= |s|
    decreases |s|
  {
    if s != [] && IsSpace(s[|s| - 1]) then TrimEnd(s[..|s| - 1]) else s
  }

  /** rstrip keeps the longest prefix that does not end with whitespace. */
  lemma {:induction false} TrimEndSpec(s: string)
    ensures var r := TrimEnd(s);
      && r == s[..|r|]
      && (r == [] || !IsSpace(r[|r| - 1]))
      && (forall i :: |r| <= i < |s| ==> IsSpace(s[i]))
    decreases |s|
  {
    if s != [] && IsSpace(s[|s| - 1]) {
      TrimEndSpec(s[..|s| - 1]);
    }
  }

  /** `str.strip()`. */
  function Strip(s: string): string {
    TrimEnd(TrimStart(s))
  }

  /** strip leaves a string that neither starts nor ends with whitespace,
      made of a run of consecutive characters of s, and it is empty exactly
      when s is all whitespace. */
  lemma StripSpec(s: string)
    ensures var r := Strip(s);
      && (r == [] || (!IsSpace(r[0]) && !IsSpace(r[|r| - 1])))
      && (r == [] <==> forall i :: 0 <= i < |s| ==> IsSpace(s[i]))
      && |s| - |TrimStart(s)| + |r| <= |s|
      && r == s[|s| - |TrimStart(s)|..][..|r|]
      && (forall c :: c in r ==> c in s)
  {
    var t := TrimStart(s);
    TrimStartSpec(s);
    TrimEndSpec(t);
    var r := TrimEnd(t);
    if r != [] {
      assert r[0] == t[0];
    }
    forall c | c in r ensures c in s {
      var j :| 0 <= j < |r| && r[j] == c;
      assert s[|s| - |t| + j] == c;
    }
  }

  /** A string that neither starts nor ends with whitespace is its own strip. */
  lemma StripUnchanged(s: string)
    requires s == [] || (!IsSpace(s[0]) && !IsSpace(s[|s| - 1]))
    ensures Strip(s) == s
  {
  }

  /** `strip` is idempotent. */
  lemma StripIdempotent(s: string)
    ensures Strip(Strip(s)) == Strip(s)
  {
    StripSpec(s);
    StripUnchanged(Strip(s));
  }

  /** `str.replace(target, replacement)` for one-character arguments. */
  function Replace(s: string, target: char, replacement: char): (r: string)
    ensures |r| == |s|
  {
    if s == [] then []
    else [if s[0] == target then replacement else s[0]] + Replace(s[1..], target, replacement)
  }

  /** replace changes exactly the occurrences of target, each into replacement. */
  lemma {:induction false} ReplaceSpec(s: string, target: char, replacement: char)
    ensures var r := Replace(s, target, replacement);
      forall i :: 0 <= i < |s| ==> r[i] == (if s[i] == target then replacement else s[i])
  {
    if s != [] {
      ReplaceSpec(s[1..], target, replacement);
    }
  }

  /** ASCII `str.lower()`. */
  function LowerChar(c: char): char {
    if 'A' <= c <= 'Z' then (c as int + 32) as char else c
  }

  function Lower(s: string): string {
    seq(|s|, i requires 0 <= i < |s| => LowerChar(s[i]))
  }

  /** `sub` occurs in `s` starting at position i. */
  predicate OccursAt(s: string, sub: string, i: nat) {
    i + |sub| <= |s| && s[i..i + |sub|] == sub
  }

  /** `sub in s` for strings. */
  predicate Contains(s: string, sub: string) {
    exists i | 0 <= i <= |s| :: OccursAt(s, sub, i)
  }

  /** `str.find(c)` where absence gives |s| instead of -1. */
  function IndexOf(s: string, c: char): (i: nat)
    ensures i <= |s|
    ensures i < |s| ==> s[i] == c
    ensures forall k :: 0 <= k < i ==> s[k] != c
  {
    if s == [] then 0
    else if s[0] == c then 0
    else 1 + IndexOf(s[1..], c)
  }

  /** `s.split(sep)` for a one-character separator. */
  function Split(s: string, sep: char): (r: seq<string>)
    ensures |r| >= 1
    ensures forall k :: 0 <= k < |r| ==> sep !in r[k]
    decreases |s|
  {
    var i := IndexOf(s, sep);
    if i == |s| then [s] else [s[..i]] + Split(s[i + 1..], sep)
  }

  /** `[sep].join(parts)`. */
  function Join(parts: seq<string>, sep: char): string {
    if |parts| == 0 then []
    else if |parts| == 1 then parts[0]
    else parts[0] + [sep] + Join(parts[1..], sep)
  }

  /** Joining what was split gives back the original string. */
  lemma {:induction false} JoinSplit(s: string, sep: char)
    ensures Join(Split(s, sep), sep) == s
    decreases |s|
  {
    var i := IndexOf(s, sep);
    if i < |s| {
      var head, tail := s[..i], s[i + 1..];
      var rest := Split(tail, sep);
      assert Split(s, sep) == [head] + rest;
      JoinSplit(tail, sep);
      calc {
        Join([head] + rest, sep);
        { assert ([head] + rest)[0] == head && ([head] + rest)[1..] == rest; }
        head + [sep] + Join(rest, sep);
        head + [sep] + tail;
        { assert s == s[..i] + [s[i]] + s[i + 1..]; }
        s;
      }
    }
  }

  /** The first piece of a split is the text before the first separator,
      and the other pieces joined back are the text after it. */
  lemma {:induction false} SplitHead(s: string, sep: char)
    ensures var r, i := Split(s, sep), IndexOf(s, sep);
      && r[0] == s[..i]
      && Join(r[1..], sep) == (if i < |s| then s[i + 1..] else [])
  {
    var i := IndexOf(s, sep);
    if i < |s| {
      var r := Split(s, sep);
      assert r[1..] == Split(s[i + 1..], sep);
      JoinSplit(s[i + 1..], sep);
    }
  }

  /** Splitting what was joined gives back the parts, when no part holds the
      separator. */
  lemma {:induction false} SplitJoin(parts: seq<string>, sep: char)
    requires |parts| >= 1
    requires forall k :: 0 <= k < |parts| ==> sep !in parts[k]
    ensures Split(Join(parts, sep), sep) == parts
    decreases |parts|
  {
    var p := parts[0];
    if |parts| == 1 {
      assert IndexOf(p, sep) == |p|;
    } else {
      var tail := Join(parts[1..], sep);
      SplitAtFirst(p, sep, tail);
      SplitJoin(parts[1..], sep);
      assert parts == [p] + parts[1..];
    }
  }

  /** The last piece of a split is the suffix after the last separator. */
  lemma {:induction false} SplitLast(s: string, sep: char)
    ensures var r := Split(s, sep); var last := r[|r| - 1];
      && |last| <= |s| && last == s[|s| - |last|..]
      && (|last| < |s| ==> s[|s| - |last| - 1] == sep)
    decreases |s|
  {
    var i := IndexOf(s, sep);
    if i < |s| {
      var t := s[i + 1..];
      var rest := Split(t, sep);
      var last := rest[|rest| - 1];
      assert Split(s, sep)[|Split(s, sep)| - 1] == last by {
        assert Split(s, sep) == [s[..i]] + rest;
      }
      SplitLast(t, sep);
      SuffixAfter(s, i, sep, last);
    } else {
      assert Split(s, sep) == [s];
    }
  }

  /** A separated suffix of the text after position i is a separated suffix
      of the whole text, when position i holds the separator. */
  lemma SuffixAfter(s: string, i: nat, sep: char, last: string)
    requires i < |s| && s[i] == sep
    requires var t := s[i + 1..];
      && |last| <= |t| && last == t[|t| - |last|..]
      && (|last| < |t| ==> t[|t| - |last| - 1] == sep)
    ensures |last| <= |s| && last == s[|s| - |last|..]
    ensures |last| < |s| ==> s[|s| - |last| - 1] == sep
  {
    var t := s[i + 1..];
    var m := |s| - |last|;
    assert s[m..] == t[|t| - |last|..];
    if m - 1 > i {
      assert s[m - 1] == t[|t| - |last| - 1];
    }
  }

  /** Index of the first line boundary, |s| if there is none. */
  function FirstBreak(s: string): (i: nat)
    ensures i <= |s|
    ensures i < |s| ==> IsLineBreak(s[i])
    ensures forall k :: 0 <= k < i ==> !IsLineBreak(s[k])
  {
    if s == [] then 0
    else if IsLineBreak(s[0]) then 0
    else 1 + FirstBreak(s[1..])
  }

  /** `str.splitlines()` with the ASCII line boundaries of IsLineBreak: the
      boundaries are dropped, `\r\n` counts as one boundary, and a boundary at
      the very end does not start an empty last line. */
  function SplitLines(s: string): (lines: seq<string>)
    ensures |lines| <= |s|
    ensures s == [] <==> lines == []
    ensures forall k, j :: 0 <= k < |lines| && 0 <= j < |lines[k]| ==> !IsLineBreak(lines[k][j])
    decreases |s|
  {
    if s == [] then []
    else
      var i := FirstBreak(s);
      if i == |s| then [s]
      else
        var next := if s[i] == '\r' && i + 1 < |s| && s[i + 1] == '\n' then i + 2 else i + 1;
        [s[..i]] + SplitLines(s[next..])
  }

  /** On text whose only line boundary is `\n` and that does not end with one,
      `splitlines()` and `split("\n")` agree. */
  lemma {:induction false} SplitLinesOnNewlines(s: string)
    requires forall k :: 0 <= k < |s| && IsLineBreak(s[k]) ==> s[k] == '\n'
    requires s != [] && s[|s| - 1] != '\n'
    ensures SplitLines(s) == Split(s, '\n')
    decreases |s|
  {
    var i := FirstBreak(s);
    assert IndexOf(s, '\n') == i;
    if i < |s| {
      assert i + 1 < |s|;
      SplitLinesOnNewlines(s[i + 1..]);
    }
  }
  /** Every line boundary replaced by `\n`, with `\r\n` counted as one. */
  function NormalizeBreaks(s: string): string
    decreases |s|
  {
    if s == [] then []
    else if s[0] == '\r' && |s| > 1 && s[1] == '\n' then ['\n'] + NormalizeBreaks(s[2..])
    else if IsLineBreak(s[0]) then ['\n'] + NormalizeBreaks(s[1..])
    else [s[0]] + NormalizeBreaks(s[1..])
  }

  /** Text without a boundary is kept as it is in front of the rest. */
  lemma {:induction false} NormalizePrefix(a: string, u: string)
    requires forall k :: 0 <= k < |a| ==> !IsLineBreak(a[k])
    ensures NormalizeBreaks(a + u) == a + NormalizeBreaks(u)
    decreases |a|
  {
    if a != [] {
      var au := a + u;
      assert au[0] == a[0] && !IsLineBreak(a[0]) && a[0] != '\r';
      assert NormalizeBreaks(au) == [a[0]] + NormalizeBreaks(au[1..]);
      assert au[1..] == a[1..] + u;
      NormalizePrefix(a[1..], u);
      assert a == [a[0]] + a[1..];
    } else {
      assert a + u == u;
    }
  }

  /** Up to the first boundary the text is kept as it is, the boundary
      becomes one `\n`, and the rest is normalised on its own. */
  lemma NormalizeAtBreak(s: string, i: nat)
    requires i < |s| && IsLineBreak(s[i])
    requires forall k :: 0 <= k < i ==> !IsLineBreak(s[k])
    ensures var next := if s[i] == '\r' && i + 1 < |s| && s[i + 1] == '\n' then i + 2 else i + 1;
      NormalizeBreaks(s) == s[..i] + ['\n'] + NormalizeBreaks(s[next..])
  {
    var next := if s[i] == '\r' && i + 1 < |s| && s[i + 1] == '\n' then i + 2 else i + 1;
    var b, head, r := s[i..], s[..i], NormalizeBreaks(s[next..]);
    assert NormalizeBreaks(b) == ['\n'] + r by {
      assert b[0] == s[i] && (|b| > 1 ==> b[1] == s[i + 1]);
      if next == i + 2 {
        assert b[2..] == s[next..];
      } else {
        assert b[1..] == s[next..];
      }
    }
    assert NormalizeBreaks(s) == head + NormalizeBreaks(b) by {
      assert s == head + b;
      NormalizePrefix(head, b);
    }
  }

  /** Text without a boundary is its own normal form. */
  lemma {:induction false} NormalizeNoBreak(s: string)
    requires FirstBreak(s) == |s|
    ensures NormalizeBreaks(s) == s
    decreases |s|
  {
    if s != [] {
      NormalizeNoBreak(s[1..]);
    }
  }

  /** The lines of text whose only boundary is `\n`: its `split("\n")`,
      without the empty piece a final `\n` leaves, and none for empty text. */
  function NewlineLines(t: string): seq<string> {
    var p := Split(t, '\n');
    if t == [] then [] else if t[|t| - 1] == '\n' then p[..|p| - 1] else p
  }

  /** Splitting at a separator that no character before it matches. */
  lemma SplitAtFirst(a: string, sep: char, u: string)
    requires sep !in a
    ensures Split(a + [sep] + u, sep) == [a] + Split(u, sep)
  {
    var t := a + [sep] + u;
    assert t[|a|] == sep;
    assert forall k :: 0 <= k < |a| ==> t[k] == a[k];
    assert IndexOf(t, sep) == |a|;
    assert t[..|a|] == a;
    assert t[|a| + 1..] == u;
  }

  /** A line ended by `\n` comes first among the lines. */
  lemma NewlineLinesCons(a: string, u: string)
    requires '\n' !in a
    ensures NewlineLines(a + ['\n'] + u) == [a] + NewlineLines(u)
  {
    var t := a + ['\n'] + u;
    SplitAtFirst(a, '\n', u);
    var pu := Split(u, '\n');
    var p := Split(t, '\n');
    if u == [] {
      assert t[|t| - 1] == '\n';
      assert pu == [[]];
      assert p[..|p| - 1] == [a];
    } else {
      assert t[|t| - 1] == u[|u| - 1];
      if u[|u| - 1] == '\n' {
        assert p[..|p| - 1] == [a] + pu[..|pu| - 1];
      }
    }
  }

  /** `splitlines()` is `split("\n")` of the text with every boundary turned
      into `\n` (`\r\n` as one), except that a boundary at the very end
      starts no empty last line and empty text has no lines. */
  lemma {:induction false} SplitLinesSpec(s: string)
    ensures SplitLines(s) == NewlineLines(NormalizeBreaks(s))
    decreases |s|
  {
    if s != [] {
      var i := FirstBreak(s);
      if i == |s| {
        NormalizeNoBreak(s);
        assert IndexOf(s, '\n') == |s|;
      } else {
        var next := if s[i] == '\r' && i + 1 < |s| && s[i + 1] == '\n' then i + 2 else i + 1;
        var rest := s[next..];
        NormalizeAtBreak(s, i);
        SplitLinesSpec(rest);
        assert '\n' !in s[..i] by {
          assert forall k :: 0 <= k < i ==> s[..i][k] == s[k] && !IsLineBreak(s[k]);
        }
        NewlineLinesCons(s[..i], NormalizeBreaks(rest));
      }
    }
  }

  /** Text whose only boundary is `\n` is its own normal form. */
  lemma {:induction false} NormalizeNewlines(s: string)
    requires forall k :: 0 <= k < |s| && IsLineBreak(s[k]) ==> s[k] == '\n'
    ensures NormalizeBreaks(s) == s
    decreases |s|
  {
    if s != [] {
      NormalizeNewlines(s[1..]);
      assert s == [s[0]] + s[1..];
    }
  }

  /** On text whose only boundary is `\n` and that ends with one,
      `splitlines()` is `split("\n")` without its empty last piece. */
  lemma SplitLinesNewlineTerminated(s: string)
    requires forall k :: 0 <= k < |s| && IsLineBreak(s[k]) ==> s[k] == '\n'
    requires s != [] && s[|s| - 1] == '\n'
    ensures var p := Split(s, '\n'); SplitLines(s) == p[..|p| - 1]
  {
    SplitLinesSpec(s);
    NormalizeNewlines(s);
  }
}
