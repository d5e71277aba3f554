/**
 * Character classes and string helpers shared by both lexers and the definer.
 * The tokenizers are written with JavaScript regular expressions; the classes they
 * use (`\s`, `\w`, and the `.` of a pattern without the `s` flag) are spelled out here
 * as predicates on characters.
 */
module Text {

  /** JavaScript's `\s`: the ECMAScript WhiteSpace and LineTerminator code points. */
  predicate IsSpace(c: char)
  {
    c == ' ' || c == '\t' || c == '\n' || c == '\r' || c == '\U{B}' || c == '\U{C}' ||
    c == '\U{A0}' || c == '\U{1680}' || ('\U{2000}' <= c <= '\U{200A}') ||
    c == '\U{2028}' || c == '\U{2029}' || c == '\U{202F}' || c == '\U{205F}' ||
    c == '\U{3000}' || c == '\U{FEFF}'
  }

  /** JavaScript's `\w`: ASCII letters, digits and the underscore. */
  predicate IsWordChar(c: char)
  {
    ('a' <= c <= 'z') || ('A' <= c <= 'Z') || ('0' <= c <= '9') || c == '_'
  }

  /** The characters that `.` does not match in a JavaScript pattern without the `s` flag. */
  predicate IsLineTerminator(c: char)
  {
    c == '\n' || c == '\r' || c == '\U{2028}' || c == '\U{2029}'
  }

  predicate NotLineTerminator(c: char)
  {
    !IsLineTerminator(c)
  }

  predicate StartsWith(s: string, prefix: string)
  {
    |prefix| <= |s| && s[..|prefix|] == prefix
  }

  /** String concatenation is associative (a step the solver does not always take by itself). */
  lemma Assoc(x: string, y: string, z: string)
    ensures (x + y) + z == x + (y + z)
  {
  }

  predicate IsSuffix(a: string, b: string)
  {
    |a| <= |b| && b[|b| - |a|..] == a
  }

  lemma SuffixTransitive(a: string, b: string, c: string)
    requires IsSuffix(a, b) && IsSuffix(b, c)
    ensures IsSuffix(a, c)
  {
    assert c[|c| - |a|..] == c[|c| - |b|..][|b| - |a|..];
  }

  /** Length of the longest prefix of `s` whose characters all satisfy `p` (a greedy `p+` / `p*` match). */
  function Run(s: string, p: char -> bool): (n: nat)
    ensures n <= |s|
  {
    if s != [] && p(s[0]) then 1 + Run(s[1..], p) else 0
  }

  /** `Run` is the greedy match: every character it covers satisfies `p`, and the next one does not. */
  lemma {:induction false} RunIsMaximal(s: string, p: char -> bool)
    ensures forall i :: 0 <= i < Run(s, p) ==> p(s[i])
    ensures Run(s, p) < |s| ==> !p(s[Run(s, p)])
    decreases |s|
  {
    if s != [] && p(s[0]) {
      RunIsMaximal(s[1..], p);
      forall i | 0 <= i < Run(s, p) ensures p(s[i]) {
        if i > 0 { assert s[i] == s[1..][i - 1]; }
      }
    }
  }

  /** A run of `p` characters followed by one that is not `p` (or by nothing) is exactly what `Run` takes. */
  lemma {:induction false} RunStopsAt(body: string, rest: string, p: char -> bool)
    requires forall i :: 0 <= i < |body| ==> p(body[i])
    requires rest == [] || !p(rest[0])
    ensures Run(body + rest, p) == |body|
    decreases |body|
  {
    if body == [] {
      assert body + rest == rest;
    } else {
      assert (body + rest)[1..] == body[1..] + rest;
      RunStopsAt(body[1..], rest, p);
    }
  }

  /** `String.prototype.trimEnd`: drops trailing `\s` characters. */
  function TrimEnd(s: string): (r: string)
    ensures |r| <= |s| && r == s[..|r|]
    ensures r == [] || !IsSpace(r[|r| - 1])
    ensures forall i :: |r| <= i < |s| ==> IsSpace(s[i])
  {
    if s != [] && IsSpace(s[|s| - 1]) then TrimEnd(s[..|s| - 1]) else s
  }

  /** `String.prototype.trimStart`: drops leading `\s` characters. */
  function TrimStart(s: string): (r: string)
    ensures IsSuffix(r, s)
    ensures r == [] || !IsSpace(r[0])
    ensures forall i :: 0 <= i < |s| - |r| ==> IsSpace(s[i])
  {
    RunIsMaximal(s, IsSpace);
    s[Run(s, IsSpace)..]
  }

  /** `String.prototype.trim`. */
  function Trim(s: string): string
  {
    TrimEnd(TrimStart(s))
  }

  /** A string that `trim` leaves as it is. */
  predicate IsTrimmed(s: string)
  {
    s == [] || (!IsSpace(s[0]) && !IsSpace(s[|s| - 1]))
  }

  lemma TrimOfTrimmed(s: string)
    requires IsTrimmed(s)
    ensures Trim(s) == s
  {
  }

  /** Trailing white space is removed only from the part after the last non-space character. */
  lemma {:induction false} TrimEndAppend(x: string, y: string)
    requires exists i :: 0 <= i < |y| && !IsSpace(y[i])
    ensures TrimEnd(x + y) == x + TrimEnd(y)
    decreases |y|
  {
    if IsSpace(y[|y| - 1]) {
      assert (x + y)[..|x + y| - 1] == x + y[..|y| - 1];
      var i :| 0 <= i < |y| && !IsSpace(y[i]);
      assert i < |y| - 1;
      assert !IsSpace(y[..|y| - 1][i]);
      TrimEndAppend(x, y[..|y| - 1]);
    }
  }

  /** `trim` leaves no white space at either end. */
  lemma TrimIsTrimmed(s: string)
    ensures IsTrimmed(Trim(s))
  {
    var t := TrimStart(s);
    var r := TrimEnd(t);
    if r != [] {
      assert r[0] == t[0];
    }
  }

  /** White space appended to a trimmed string is what `trim` removes. */
  lemma {:induction false} TrimOfPadded(t: string, w: string)
    requires IsTrimmed(t)
    requires forall i :: 0 <= i < |w| ==> IsSpace(w[i])
    ensures Trim(t + w) == t
    decreases |w|
  {
    if t == [] {
      assert t + w == w;
      RunIsMaximal(w, IsSpace);
      AllSpaceRun(w);
    } else {
      assert (t + w)[0] == t[0];
      TrimEndOfPadded(t, w);
    }
  }

  lemma {:induction false} AllSpaceRun(w: string)
    requires forall i :: 0 <= i < |w| ==> IsSpace(w[i])
    ensures Run(w, IsSpace) == |w|
    decreases |w|
  {
    if w != [] {
      AllSpaceRun(w[1..]);
    }
  }

  lemma {:induction false} TrimEndOfPadded(t: string, w: string)
    requires t == [] || !IsSpace(t[|t| - 1])
    requires forall i :: 0 <= i < |w| ==> IsSpace(w[i])
    ensures TrimEnd(t + w) == t
    decreases |w|
  {
    if w == [] {
      assert t + w == t;
    } else {
      assert (t + w)[..|t + w| - 1] == t + w[..|w| - 1];
      TrimEndOfPadded(t, w[..|w| - 1]);
    }
  }
}
