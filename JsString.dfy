/** The ECMAScript string built-ins the plugin relies on: the whitespace class
    shared by `\s` and `String.prototype.trim`, `toLowerCase` (over ASCII),
    `endsWith`, `lastIndexOf`, `Array.prototype.join`, a global single-character
    `replace`, and a global `replace` of the runs matched by a `c+` pattern. */
module JsString {

  /** ECMAScript WhiteSpace and LineTerminator code points (the `\s` class of a
      regular expression, and what `trim` removes). */
  predicate IsWhitespace(c: char) {
    || c == '\t' || c == '\n' || c == '\U{B}' || c == '\U{C}' || c == '\r'
    || c == ' ' || c == '\U{A0}' || c == '\U{1680}'
    || ('\U{2000}' <= c <= '\U{200A}')
    || c == '\U{2028}' || c == '\U{2029}' || c == '\U{202F}' || c == '\U{205F}'
    || c == '\U{3000}' || c == '\U{FEFF}'
  }

  /** The same code points listed one by one: the ECMAScript WhiteSpace set
      (tab, vertical tab, form feed, space, no-break space, the byte order
      mark and the Unicode space separators) and the LineTerminator set. */
  const WhitespaceCodePoints: set<char> := {
    '\t', '\n', '\U{B}', '\U{C}', '\r', ' ', '\U{A0}', '\U{1680}',
    '\U{2000}', '\U{2001}', '\U{2002}', '\U{2003}', '\U{2004}', '\U{2005}',
    '\U{2006}', '\U{2007}', '\U{2008}', '\U{2009}', '\U{200A}',
    '\U{2028}', '\U{2029}', '\U{202F}', '\U{205F}', '\U{3000}', '\U{FEFF}'
  }

  /** `IsWhitespace` holds of exactly the listed code points. The byte order
      mark is one of them; Mongolian vowel separator (U+180E), next line
      (U+0085) and zero width space (U+200B) are not. */
  lemma IsWhitespaceCodePoints(c: char)
    ensures IsWhitespace(c) <==> c in WhitespaceCodePoints
    ensures IsWhitespace('\U{FEFF}')
    ensures !IsWhitespace('\U{180E}') && !IsWhitespace('\U{85}') && !IsWhitespace('\U{200B}')
  {
  }

  predicate NoWhitespace(s: string) {
    forall i :: 0 <= i < |s| ==> !IsWhitespace(s[i])
  }

  /** `toLowerCase` on one character, restricted to the ASCII letters. */
  function ToLowerChar(c: char): (r: char)
    ensures !('A' <= r <= 'Z')
    ensures !('A' <= c <= 'Z') ==> r == c
    ensures 'A' <= c <= 'Z' ==> 'a' <= r <= 'z' && r as int - 'a' as int == c as int - 'A' as int
  {
    if 'A' <= c <= 'Z' then (c as int - 'A' as int + 'a' as int) as char else c
  }

  /** `toLowerCase`: each character is lower-cased on its own, in place. */
  function ToLowerCase(s: string): (r: string)
    ensures |r| == |s|
    ensures forall i :: 0 <= i < |s| ==> r[i] == ToLowerChar(s[i])
  {
    seq(|s|, i requires 0 <= i < |s| => ToLowerChar(s[i]))
  }

  /** `s.endsWith(suffix)`: `s` is some prefix followed by `suffix`. */
  predicate EndsWith(s: string, suffix: string): (r: bool)
    ensures r <==> |suffix| <= |s| && s[..|s| - |suffix|] + suffix == s
  {
    |suffix| <= |s| && s[|s| - |suffix|..] == suffix
  }

  /** `pat` occurs in `s` starting at index `i`. */
  predicate OccursAt(s: string, pat: string, i: int) {
    0 <= i && i + |pat| <= |s| && s[i..i + |pat|] == pat
  }

  ghost predicate Contains(s: string, pat: string) {
    exists i :: OccursAt(s, pat, i)
  }

  /** The greatest index `<= k` at which `pat` occurs in `s`, or -1. */
  function LastIndexAtOrBelow(s: string, pat: string, k: int): (r: int)
    ensures r == -1 || (0 <= r <= k && OccursAt(s, pat, r))
    ensures forall j :: r < j <= k ==> !OccursAt(s, pat, j)
    decreases if k < 0 then 0 else k + 1
  {
    if k < 0 then -1
    else if OccursAt(s, pat, k) then k
    else LastIndexAtOrBelow(s, pat, k - 1)
  }

  /** `s.lastIndexOf(pat)`: the start of the last occurrence of `pat`, or -1. */
  function LastIndexOf(s: string, pat: string): (r: int)
    ensures r == -1 <==> !Contains(s, pat)
    ensures r != -1 ==> OccursAt(s, pat, r) && forall j :: r < j ==> !OccursAt(s, pat, j)
  {
    LastIndexAtOrBelow(s, pat, |s| - |pat|)
  }

  /** `s.replace(/x/g, to)` for a single character `x`. */
  function ReplaceChar(s: string, x: char, to: char): (r: string)
    ensures |r| == |s|
    ensures forall i :: 0 <= i < |s| ==> r[i] == if s[i] == x then to else s[i]
  {
    if s == [] then []
    else [if s[0] == x then to else s[0]] + ReplaceChar(s[1..], x, to)
  }

  /** The length of the longest prefix whose characters all satisfy `p`. */
  function LeadingRun(s: string, p: char -> bool): (n: nat)
    ensures n <= |s|
    ensures forall i :: 0 <= i < n ==> p(s[i])
    ensures n == |s| || !p(s[n])
  {
    if s != [] && p(s[0]) then 1 + LeadingRun(s[1..], p) else 0
  }

  /** The length left once the longest suffix whose characters all satisfy `p`
      is removed. */
  function TrailingKeep(s: string, p: char -> bool): (n: nat)
    ensures n <= |s|
    ensures forall i :: n <= i < |s| ==> p(s[i])
    ensures n == 0 || !p(s[n - 1])
  {
    if s != [] && p(s[|s| - 1]) then TrailingKeep(s[..|s| - 1], p) else |s|
  }

  /** Drops the longest prefix whose characters all satisfy `p`. */
  function DropLeading(s: string, p: char -> bool): string {
    s[LeadingRun(s, p)..]
  }

  /** Drops the longest suffix whose characters all satisfy `p`. */
  function DropTrailing(s: string, p: char -> bool): string {
    s[..TrailingKeep(s, p)]
  }

  /** `s.trim()`. */
  function Trim(s: string): (r: string)
    ensures |r| <= |s|
    ensures r == [] || (!IsWhitespace(r[0]) && !IsWhitespace(r[|r| - 1]))
  {
    DropTrailing(DropLeading(s, IsWhitespace), IsWhitespace)
  }

  /** No two neighbouring characters both satisfy `q`. */
  predicate NoAdjacent(s: string, q: char -> bool) {
    forall i :: 0 <= i < |s| - 1 ==> !(q(s[i]) && q(s[i + 1]))
  }

  /** `s.replace(/c+/g, rep)` where the class `c` is given by `p`: every
      maximal run of characters satisfying `p` becomes the one character `rep`,
      and every other character is kept. */
  function ReplaceRuns(s: string, p: char -> bool, rep: char): (r: string)
    ensures |r| <= |s|
    decreases |s|
  {
    if s == [] then []
    else if p(s[0]) then [rep] + ReplaceRuns(DropLeading(s, p), p, rep)
    else [s[0]] + ReplaceRuns(s[1..], p, rep)
  }

  /** One step of `ReplaceRuns`: a leading run becomes `rep`, another leading
      character is copied. */
  lemma ReplaceRunsStep(s: string, p: char -> bool, rep: char)
    requires s != []
    ensures p(s[0]) ==> ReplaceRuns(s, p, rep) == [rep] + ReplaceRuns(DropLeading(s, p), p, rep)
    ensures !p(s[0]) ==> ReplaceRuns(s, p, rep) == [s[0]] + ReplaceRuns(s[1..], p, rep)
  {
  }

  /** The output is empty exactly when the input is, and its first and last
      characters are those of the input, with a `p` character turned to `rep`. */
  lemma {:induction false} ReplaceRunsEnds(s: string, p: char -> bool, rep: char)
    ensures |ReplaceRuns(s, p, rep)| == 0 <==> |s| == 0
    ensures s != [] ==> ReplaceRuns(s, p, rep)[0] == if p(s[0]) then rep else s[0]
    ensures s != [] ==> var r := ReplaceRuns(s, p, rep);
      r[|r| - 1] == if p(s[|s| - 1]) then rep else s[|s| - 1]
    decreases |s|
  {
    if s != [] {
      ReplaceRunsStep(s, p, rep);
      if p(s[0]) {
        var rest := DropLeading(s, p);
        assert rest == s[|s| - |rest|..];
        ReplaceRunsEnds(rest, p, rep);
        if rest != [] {
          assert rest[|rest| - 1] == s[|s| - 1];
        }
      } else {
        ReplaceRunsEnds(s[1..], p, rep);
      }
    }
  }

  /** Every output character is `rep` or is outside the class `p`. */
  lemma {:induction false} ReplaceRunsOutsideClass(s: string, p: char -> bool, rep: char)
    ensures forall i :: 0 <= i < |ReplaceRuns(s, p, rep)| ==>
      var c := ReplaceRuns(s, p, rep)[i]; c == rep || !p(c)
    decreases |s|
  {
    if s != [] {
      ReplaceRunsStep(s, p, rep);
      var tail := if p(s[0]) then DropLeading(s, p) else s[1..];
      ReplaceRunsOutsideClass(tail, p, rep);
      var r, r' := ReplaceRuns(s, p, rep), ReplaceRuns(tail, p, rep);
      assert forall i :: 1 <= i < |r| ==> r[i] == r'[i - 1];
    }
  }

  /** When `rep` is itself in the class `p`, no two output neighbours are in
      the class: each run has become one character. */
  lemma {:induction false} ReplaceRunsNoAdjacentRuns(s: string, p: char -> bool, rep: char)
    requires p(rep)
    ensures NoAdjacent(ReplaceRuns(s, p, rep), p)
    decreases |s|
  {
    if s != [] {
      ReplaceRunsStep(s, p, rep);
      var tail := if p(s[0]) then DropLeading(s, p) else s[1..];
      ReplaceRunsNoAdjacentRuns(tail, p, rep);
      ReplaceRunsEnds(tail, p, rep);
      var r' := ReplaceRuns(tail, p, rep);
      assert r' != [] && p(s[0]) ==> !p(r'[0]);
      NoAdjacentCons(if p(s[0]) then rep else s[0], r', p);
    }
  }

  /** `parts.join(sep)`. */
  function Join(parts: seq<string>, sep: string): (r: string)
    ensures |parts| == 0 ==> r == ""
    ensures |parts| == 1 ==> r == parts[0]
    ensures |parts| > 1 ==> parts[0] + sep <= r
  {
    if |parts| == 0 then ""
    else if |parts| == 1 then parts[0]
    else parts[0] + sep + Join(parts[1..], sep)
  }

  /** An occurrence in `b` is an occurrence in `a + b`, shifted by `|a|`. */
  lemma OccursAtShift(a: string, b: string, pat: string, i: nat)
    requires OccursAt(b, pat, i)
    ensures OccursAt(a + b, pat, |a| + i)
  {
    assert (a + b)[|a| + i..|a| + i + |pat|] == b[i..i + |pat|];
  }

  /** Where each part sits in the joined string: the first at the start and
      every later one right after a separator. */
  lemma {:induction false} JoinPartAt(parts: seq<string>, sep: string, i: nat) returns (pos: nat)
    requires i < |parts|
    ensures OccursAt(Join(parts, sep), parts[i], pos)
    ensures i == 0 ==> pos == 0
    ensures i > 0 ==> pos >= |sep| && OccursAt(Join(parts, sep), sep, pos - |sep|)
  {
    var joined := Join(parts, sep);
    if |parts| == 1 {
      pos := 0;
      assert joined[..|parts[0]|] == parts[0];
    } else {
      var head, rest := parts[0] + sep, Join(parts[1..], sep);
      assert joined == head + rest;
      if i == 0 {
        pos := 0;
        assert joined[..|parts[0]|] == parts[0];
      } else {
        var q := JoinPartAt(parts[1..], sep, i - 1);
        OccursAtShift(head, rest, parts[i], q);
        pos := |head| + q;
        if i == 1 {
          assert joined[|parts[0]|..|parts[0]| + |sep|] == sep;
        } else {
          OccursAtShift(head, rest, sep, q - |sep|);
        }
      }
    }
  }

  /** The parts written one after another, with nothing between them. */
  function Concat(parts: seq<string>): string {
    if parts == [] then "" else parts[0] + Concat(parts[1..])
  }

  /** Each part with `sep` written in front of it. */
  function Prefixed(parts: seq<string>, sep: string): seq<string> {
    seq(|parts|, i requires 0 <= i < |parts| => sep + parts[i])
  }

  /** `join` is the first part followed by every later part, each with the
      separator in front of it, in their order and with nothing else. */
  lemma {:induction false} JoinConcat(parts: seq<string>, sep: string)
    requires parts != []
    ensures Join(parts, sep) == parts[0] + Concat(Prefixed(parts[1..], sep))
    decreases |parts|
  {
    if |parts| > 1 {
      var rest := parts[1..];
      JoinConcat(rest, sep);
      var p, q := Prefixed(rest, sep), Prefixed(rest[1..], sep);
      assert p[1..] == q;
      assert Concat(p) == (sep + rest[0]) + Concat(q);
      assert Join(parts, sep) == parts[0] + sep + (rest[0] + Concat(q));
    } else {
      assert Prefixed(parts[1..], sep) == [];
    }
  }

  /** In `r`, the parts joined by newlines, every part after the first starts
      right after a newline. */
  lemma JoinLineAt(parts: seq<string>, i: nat, r: string, line: string) returns (pos: nat)
    requires 0 < i < |parts| && r == Join(parts, "\n") && parts[i] == line
    ensures pos >= 1 && OccursAt(r, line, pos) && r[pos - 1] == '\n'
  {
    pos := JoinPartAt(parts, "\n", i);
    assert r[pos - 1..pos][0] == r[pos - 1];
  }

  /** Every character of `s` satisfies `p`. */
  predicate All(s: string, p: char -> bool) {
    forall i :: 0 <= i < |s| ==> p(s[i])
  }

  /** A string with no two neighbouring `p` characters, whose `p` characters are
      all `rep` already, is left as it is. */
  lemma {:induction false} ReplaceRunsIdentity(s: string, p: char -> bool, rep: char)
    requires NoAdjacent(s, p)
    requires forall i :: 0 <= i < |s| ==> p(s[i]) ==> s[i] == rep
    ensures ReplaceRuns(s, p, rep) == s
    decreases |s|
  {
    if s != [] {
      if p(s[0]) {
        assert |s| > 1 ==> !p(s[1]);
        assert DropLeading(s, p) == s[1..];
      }
      ReplaceRunsIdentity(s[1..], p, rep);
    }
  }

  /** A non-empty run of `p` characters becomes the single character `rep`. */
  lemma ReplaceRunsOfRun(s: string, p: char -> bool, rep: char)
    requires s != [] && All(s, p)
    ensures ReplaceRuns(s, p, rep) == [rep]
  {
    assert DropLeading(s, p) == [];
  }

  lemma {:induction false} DropLeadingAppend(a: string, b: string, p: char -> bool)
    ensures DropLeading(a + b, p) == if DropLeading(a, p) == [] then DropLeading(b, p) else DropLeading(a, p) + b
    decreases |a|
  {
    if a == [] {
      assert a + b == b;
    } else if p(a[0]) {
      assert (a + b)[1..] == a[1..] + b;
      DropLeadingAppend(a[1..], b, p);
    }
  }

  lemma {:induction false} DropTrailingAppendRun(a: string, v: string, p: char -> bool)
    requires All(v, p)
    ensures DropTrailing(a + v, p) == DropTrailing(a, p)
    decreases |v|
  {
    if v == [] {
      assert a + v == a;
    } else {
      assert (a + v)[..|a + v| - 1] == a + v[..|v| - 1];
      DropTrailingAppendRun(a, v[..|v| - 1], p);
    }
  }

  lemma {:induction false} DropTrailingAppend(a: string, b: string, p: char -> bool)
    ensures DropTrailing(a + b, p) == if DropTrailing(b, p) == [] then DropTrailing(a, p) else a + DropTrailing(b, p)
    decreases |b|
  {
    if b == [] {
      assert a + b == a;
    } else if p(b[|b| - 1]) {
      assert (a + b)[..|a + b| - 1] == a + b[..|b| - 1];
      DropTrailingAppend(a, b[..|b| - 1], p);
    }
  }

  lemma ConsAssoc(c: char, x: string, y: string)
    ensures [c] + (x + y) == ([c] + x) + y
  {
  }

  /** Replacing runs commutes with concatenation when no run straddles the seam. */
  lemma {:induction false} ReplaceRunsAppend(a: string, b: string, p: char -> bool, rep: char)
    requires a == [] || b == [] || !p(a[|a| - 1]) || !p(b[0])
    ensures ReplaceRuns(a + b, p, rep) == ReplaceRuns(a, p, rep) + ReplaceRuns(b, p, rep)
    decreases |a|, 1
  {
    if a == [] {
      assert a + b == b;
    } else if b == [] {
      assert a + b == a;
    } else if p(a[0]) {
      ReplaceRunsAppendAtRun(a, b, p, rep);
    } else {
      ReplaceRunsAppendAtChar(a, b, p, rep);
    }
  }

  lemma {:induction false} ReplaceRunsAppendAtRun(a: string, b: string, p: char -> bool, rep: char)
    requires a != [] && b != [] && p(a[0])
    requires !p(a[|a| - 1]) || !p(b[0])
    ensures ReplaceRuns(a + b, p, rep) == ReplaceRuns(a, p, rep) + ReplaceRuns(b, p, rep)
    decreases |a|, 0
  {
    var ab := a + b;
    assert ab[0] == a[0];
    var rest := DropLeading(a, p);
    DropLeadingAppend(a, b, p);
    if rest == [] {
      assert p(a[|a| - 1]);
      assert DropLeading(ab, p) == b;
      assert ReplaceRuns(ab, p, rep) == [rep] + ReplaceRuns(b, p, rep);
    } else {
      assert DropLeading(ab, p) == rest + b;
      assert rest == a[|a| - |rest|..];
      assert rest[|rest| - 1] == a[|a| - 1];
      ReplaceRunsAppend(rest, b, p, rep);
      ConsAssoc(rep, ReplaceRuns(rest, p, rep), ReplaceRuns(b, p, rep));
    }
  }

  lemma {:induction false} ReplaceRunsAppendAtChar(a: string, b: string, p: char -> bool, rep: char)
    requires a != [] && b != [] && !p(a[0])
    requires !p(a[|a| - 1]) || !p(b[0])
    ensures ReplaceRuns(a + b, p, rep) == ReplaceRuns(a, p, rep) + ReplaceRuns(b, p, rep)
    decreases |a|, 0
  {
    var ab := a + b;
    var tail := a[1..];
    assert ab[0] == a[0];
    assert ab[1..] == tail + b;
    if tail != [] {
      assert tail[|tail| - 1] == a[|a| - 1];
    }
    ReplaceRunsAppend(tail, b, p, rep);
    ConsAssoc(a[0], ReplaceRuns(tail, p, rep), ReplaceRuns(b, p, rep));
  }

  /** Replacing runs of `p` keeps a string free of neighbouring `q` characters,
      when `q` characters are never `p` characters and `rep` is not one. */
  lemma {:induction false} ReplaceRunsKeepsNoAdjacent(s: string, p: char -> bool, rep: char, q: char -> bool)
    requires NoAdjacent(s, q)
    requires !q(rep)
    requires forall c :: q(c) ==> !p(c)
    ensures NoAdjacent(ReplaceRuns(s, p, rep), q)
    decreases |s|
  {
    if s != [] {
      ReplaceRunsStep(s, p, rep);
      if p(s[0]) {
        var rest := DropLeading(s, p);
        NoAdjacentDrop(s, |s| - |rest|, q);
        ReplaceRunsKeepsNoAdjacent(rest, p, rep, q);
        NoAdjacentCons(rep, ReplaceRuns(rest, p, rep), q);
      } else {
        NoAdjacentDrop(s, 1, q);
        ReplaceRunsKeepsNoAdjacent(s[1..], p, rep, q);
        ReplaceRunsEnds(s[1..], p, rep);
        var r' := ReplaceRuns(s[1..], p, rep);
        assert r' != [] ==> (q(r'[0]) ==> r'[0] == s[1]);
        NoAdjacentCons(s[0], r', q);
      }
    }
  }

  lemma NoAdjacentCons(c: char, t: string, q: char -> bool)
    ensures NoAdjacent([c] + t, q) <==> NoAdjacent(t, q) && (t == [] || !(q(c) && q(t[0])))
  {
    var s := [c] + t;
    if NoAdjacent(s, q) {
      forall i | 0 <= i < |t| - 1
        ensures !(q(t[i]) && q(t[i + 1]))
      {
        assert t[i] == s[i + 1] && t[i + 1] == s[i + 2];
      }
      assert t != [] ==> t[0] == s[1];
    }
    if NoAdjacent(t, q) && (t == [] || !(q(c) && q(t[0]))) {
      forall i | 0 <= i < |s| - 1
        ensures !(q(s[i]) && q(s[i + 1]))
      {
        if i > 0 {
          assert s[i] == t[i - 1] && s[i + 1] == t[i];
        } else {
          assert s[0] == c && s[1] == t[0];
        }
      }
    }
  }

  lemma NoAdjacentDrop(s: string, k: nat, q: char -> bool)
    requires k <= |s| && NoAdjacent(s, q)
    ensures NoAdjacent(s[k..], q)
  {
    var t := s[k..];
    assert forall i :: 0 <= i < |t| ==> t[i] == s[k + i];
  }

  /** `trim` ignores whitespace added around its input. */
  lemma TrimSurrounded(u: string, s: string, v: string)
    requires All(u, IsWhitespace) && All(v, IsWhitespace)
    ensures Trim(u + s + v) == Trim(s)
  {
    assert u + s + v == u + (s + v);
    DropLeadingAppend(u, s + v, IsWhitespace);
    assert DropLeading(u, IsWhitespace) == [];
    DropLeadingAppend(s, v, IsWhitespace);
    var t := DropLeading(s, IsWhitespace);
    if t == [] {
      assert DropLeading(v, IsWhitespace) == [];
    } else {
      DropTrailingAppendRun(t, v, IsWhitespace);
    }
  }

  /** Between a piece that ends and a piece that starts with a non-whitespace
      character, `trim` keeps everything: it only trims the outer ends. */
  lemma TrimInterior(x: string, w: string, y: string)
    requires x != [] && !IsWhitespace(x[|x| - 1])
    requires y != [] && !IsWhitespace(y[0])
    ensures Trim(x + w + y) == Trim(x) + w + Trim(y)
  {
    assert x + w + y == x + (w + y);
    DropLeadingAppend(x, w + y, IsWhitespace);
    var dx := DropLeading(x, IsWhitespace);
    assert dx != [] && dx[|dx| - 1] == x[|x| - 1];
    assert dx + (w + y) == (dx + w) + y;
    DropTrailingAppend(dx + w, y, IsWhitespace);
    assert DropLeading(y, IsWhitespace) == y;
    assert DropTrailing(y, IsWhitespace) != [];
    assert DropTrailing(dx, IsWhitespace) == dx;
  }

  lemma TrimIdentity(s: string)
    requires s == [] || (!IsWhitespace(s[0]) && !IsWhitespace(s[|s| - 1]))
    ensures Trim(s) == s
  {
  }

  /** A class `q` that holds of every character of `s`, and of `rep`, holds of
      every character after runs are replaced. */
  lemma {:induction false} ReplaceRunsKeepsAll(s: string, p: char -> bool, rep: char, q: char -> bool)
    requires All(s, q) && q(rep)
    ensures All(ReplaceRuns(s, p, rep), q)
    decreases |s|
  {
    if s != [] {
      if p(s[0]) {
        var rest := DropLeading(s, p);
        assert rest == s[|s| - |rest|..];
        ReplaceRunsKeepsAll(rest, p, rep, q);
      } else {
        ReplaceRunsKeepsAll(s[1..], p, rep, q);
      }
    }
  }

  /** `trim` returns a contiguous piece of its input. */
  lemma TrimIsSlice(s: string) returns (start: nat)
    ensures start + |Trim(s)| <= |s| && Trim(s) == s[start..start + |Trim(s)|]
  {
    var t := DropLeading(s, IsWhitespace);
    var r := DropTrailing(t, IsWhitespace);
    assert r == Trim(s);
    start := |s| - |t|;
    assert t == s[start..];
    assert r == t[..|r|];
    SliceOfSuffix(s, start, |r|);
  }

  lemma SliceOfSuffix(s: string, start: nat, n: nat)
    requires start + n <= |s|
    ensures s[start..][..n] == s[start..start + n]
  {
  }

  lemma TrimKeepsAll(s: string, q: char -> bool)
    requires All(s, q)
    ensures All(Trim(s), q)
  {
    var start := TrimIsSlice(s);
  }

  lemma TrimKeepsNoAdjacent(s: string, q: char -> bool)
    requires NoAdjacent(s, q)
    ensures NoAdjacent(Trim(s), q)
  {
    var start := TrimIsSlice(s);
    var r := Trim(s);
    forall i | 0 <= i < |r| - 1
      ensures !(q(r[i]) && q(r[i + 1]))
    {
      assert r[i] == s[start + i] && r[i + 1] == s[start + i + 1];
    }
  }

  lemma ReplaceCharAppend(a: string, b: string, x: char, to: char)
    ensures ReplaceChar(a + b, x, to) == ReplaceChar(a, x, to) + ReplaceChar(b, x, to)
  {
    var l, r := ReplaceChar(a, x, to), ReplaceChar(b, x, to);
    assert forall i :: 0 <= i < |a + b| ==> ReplaceChar(a + b, x, to)[i] == (l + r)[i];
  }

  lemma ReplaceCharAbsent(s: string, x: char, to: char)
    requires forall i :: 0 <= i < |s| ==> s[i] != x
    ensures ReplaceChar(s, x, to) == s
  {
    assert forall i :: 0 <= i < |s| ==> ReplaceChar(s, x, to)[i] == s[i];
  }
}
