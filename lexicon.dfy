/**
 * What the two tokenizers of the extension cut off the front of their text, stated as
 * functions. `Lex(Core, s)` is the token `Tokenizer.next` (src/core/tokenizer.ts) returns on
 * a non-empty text `s`; `Lex(Legacy, s)` is the one the older tokenizer of src/extension.ts
 * returns. The classes in tokenizer.dfy and legacy.dfy are proved to follow these functions.
 */
module Lexicon {
  import opened Options
  import opened Text

  /** Which of the two implementations a function describes. */
  datatype Dialect = Core | Legacy

  /**
   * One type for both token sets: the legacy tokenizer never produces Comment,
   * StringLiteral or Eq (LegacyKinds).
   */
  datatype TokenType =
    | Unknown | Space | Comment | ClassKeyword | PublicKeyword | Ident | StringLiteral
    | LParen | RParen | LBrace | RBrace | LBracket | RBracket | SemiColumn
    | ColumnColumn | Column | LAngleBracket | RAngleBracket | Comma | Tilde | Star
    | Ampersand | Eq

  datatype Token = Token(text: string, kind: TokenType)

  datatype QuoteType = Single | Double

  const ClassKeywords: seq<string> := ["class", "struct", "interface"]
  const PublicKeywords: seq<string> := ["public", "private", "protected"]
  const LegacyClassKeywords: seq<string> := ["class", "struct"]

  /** `\b` right after the first `n` characters, given that the character before them is a word character. */
  predicate WordEndsAt(s: string, n: nat)
  {
    n == |s| || (n < |s| && !IsWordChar(s[n]))
  }

  /**
   * The alternative of `^(k0|k1|...)` that matches; with `bounded`, the pattern is
   * `^\b(k0|k1|...)\b` and the keyword must end at a word boundary.
   */
  function KeywordAt(s: string, keywords: seq<string>, bounded: bool): (r: Option<string>)
    ensures r.Some? ==> r.value in keywords && StartsWith(s, r.value) && (bounded ==> WordEndsAt(s, |r.value|))
  {
    if keywords == [] then None
    else if StartsWith(s, keywords[0]) && (!bounded || WordEndsAt(s, |keywords[0]|)) then Some(keywords[0])
    else KeywordAt(s, keywords[1..], bounded)
  }

  /** Length of the match of `^(#|\/\/).*\n`, if the text matches. */
  function LineCommentLength(s: string): (r: Option<nat>)
    ensures r.Some? ==> 0 < r.value <= |s| && s[r.value - 1] == '\n'
  {
    var p := if s != [] && s[0] == '#' then 1 else if StartsWith(s, "//") then 2 else 0;
    if p == 0 then None
    else
      var n := Run(s[p..], NotLineTerminator);
      if p + n < |s| && s[p + n] == '\n' then Some(p + n + 1) else None
  }

  /**
   * The characters `tokenizeBlockComment` consumes from `s` when its nesting counter
   * is `layer`: an opening marker opens a level, a closing marker closes one and the scan stops when the counter
   * comes back to zero, or at the end of the text.
   */
  function BlockScan(s: string, layer: int): (n: nat)
    ensures n <= |s|
    ensures n == |s| || (n >= 2 && s[n - 2] == '*' && s[n - 1] == '/')
    decreases |s|
  {
    if StartsWithPair(s, '/', '*') then 2 + BlockScan(s[2..], layer + 1)
    else if StartsWithPair(s, '*', '/') then (if layer - 1 == 0 then 2 else 2 + BlockScan(s[2..], layer - 1))
    else if s == [] then 0
    else 1 + BlockScan(s[1..], layer)
  }

  /** `startsWith` of a two-character marker, written out character by character. */
  predicate StartsWithPair(s: string, a: char, b: char)
  {
    |s| >= 2 && s[0] == a && s[1] == b
  }

  lemma PairIsPrefix(s: string, a: char, b: char)
    ensures StartsWithPair(s, a, b) <==> StartsWith(s, [a, b])
  {
    if |s| >= 2 {
      assert s[..2][0] == s[0] && s[..2][1] == s[1];
      if s[0] == a && s[1] == b {
        assert s[..2] == [a, b];
      }
    }
  }

  function QuoteChar(q: QuoteType): char
  {
    if q == Single then '\'' else '"'
  }

  /**
   * The escape sequence `tokenizeStringLiteral` skips. The source picks it with
   * `quoteType ? ... : ...`, and `QuoteType.Single` is 0, so the single-quote scanner
   * skips a backslash-double-quote and the double-quote scanner a backslash-single-quote.
   */
  function BackslashQuote(q: QuoteType): string
  {
    if q == Double then "\\'" else "\\\""
  }

  function FirstIndex(s: string, c: char): (i: nat)
    requires c in s
    ensures i < |s| && s[i] == c
    ensures forall j :: 0 <= j < i ==> s[j] != c
  {
    if s[0] == c then 0 else 1 + FirstIndex(s[1..], c)
  }

  /**
   * The characters the loop of `tokenizeStringLiteral` consumes before its `break`.
   * The escape never contains the quote character, so the loop stops at the first quote.
   */
  function StringScan(s: string, q: QuoteType): (n: nat)
    requires QuoteChar(q) in s
    ensures 0 < n <= |s|
    decreases FirstIndex(s, QuoteChar(q))
  {
    var c := QuoteChar(q);
    if StartsWith(s, BackslashQuote(q)) then
      assert s[0] != c && s[1] != c && FirstIndex(s, c) >= 2 && s[2..][FirstIndex(s, c) - 2] == c;
      2 + StringScan(s[2..], q)
    else if s[0] == c then 1
    else
      assert s[1..][FirstIndex(s, c) - 1] == c;
      1 + StringScan(s[1..], q)
  }

  /** How `next` treats the front of the text: a regex match of known length, or one of the two scanning loops. */
  datatype Rule = ChopRule(len: nat, kind: TokenType) | BlockCommentRule | StringLiteralRule(quote: QuoteType)

  /** The one text a punctuation token can have; None for the other kinds. */
  function SymbolText(k: TokenType): Option<string>
  {
    match k
    case LParen => Some("(")
    case RParen => Some(")")
    case LBrace => Some("{")
    case RBrace => Some("}")
    case LBracket => Some("[")
    case RBracket => Some("]")
    case SemiColumn => Some(";")
    case ColumnColumn => Some("::")
    case Column => Some(":")
    case Comma => Some(",")
    case LAngleBracket => Some("<")
    case RAngleBracket => Some(">")
    case Tilde => Some("~")
    case Star => Some("*")
    case Ampersand => Some("&")
    case Eq => Some("=")
    case _ => None
  }

  /** The single-character (and `::`) rules at the end of both `next` chains. */
  function Punctuation(s: string, withEq: bool): (r: Rule)
    requires s != []
    ensures r.ChopRule? && 0 < r.len <= |s|
    ensures r.kind !in {Space, Comment, ClassKeyword, PublicKeyword, Ident, StringLiteral}
    ensures r.kind == Unknown ==> r.len == 1
    ensures r.kind != Unknown ==> SymbolText(r.kind).Some? && s[..r.len] == SymbolText(r.kind).value
    ensures !withEq ==> r.kind != Eq
  {
    var c := s[0];
    if c == '(' then ChopRule(1, LParen)
    else if c == ')' then ChopRule(1, RParen)
    else if c == '{' then ChopRule(1, LBrace)
    else if c == '}' then ChopRule(1, RBrace)
    else if c == '[' then ChopRule(1, LBracket)
    else if c == ']' then ChopRule(1, RBracket)
    else if c == ';' then ChopRule(1, SemiColumn)
    else if StartsWith(s, "::") then ChopRule(2, ColumnColumn)
    else if c == ':' then ChopRule(1, Column)
    else if c == ',' then ChopRule(1, Comma)
    else if c == '<' then ChopRule(1, LAngleBracket)
    else if c == '>' then ChopRule(1, RAngleBracket)
    else if c == '~' then ChopRule(1, Tilde)
    else if c == '*' then ChopRule(1, Star)
    else if c == '&' then ChopRule(1, Ampersand)
    else if withEq && c == '=' then ChopRule(1, Eq)
    else ChopRule(1, Unknown)
  }

  /** The `if ... else if` chain of `Tokenizer.next` in src/core/tokenizer.ts. */
  function CoreRule(s: string): (r: Rule)
    requires s != []
    ensures r.ChopRule? ==> 0 < r.len <= |s|
    ensures r.BlockCommentRule? ==> StartsWith(s, "/*")
    ensures r.StringLiteralRule? ==> s[0] == QuoteChar(r.quote)
  {
    if IsSpace(s[0]) then ChopRule(Run(s, IsSpace), Space)
    else if StartsWith(s, "/*") then BlockCommentRule
    else if LineCommentLength(s).Some? then ChopRule(LineCommentLength(s).value, Comment)
    else if s[0] == '\'' then StringLiteralRule(Single)
    else if s[0] == '"' then StringLiteralRule(Double)
    else if KeywordAt(s, ClassKeywords, true).Some? then ChopRule(|KeywordAt(s, ClassKeywords, true).value|, ClassKeyword)
    else if KeywordAt(s, PublicKeywords, true).Some? then ChopRule(|KeywordAt(s, PublicKeywords, true).value|, PublicKeyword)
    else if Run(s, IsWordChar) > 0 then ChopRule(Run(s, IsWordChar), Ident)
    else Punctuation(s, true)
  }

  /** The chain of `Tokenizer.next` in src/extension.ts: no comments, no string literals, no `=`, no word boundaries. */
  function LegacyRule(s: string): (r: Rule)
    requires s != []
    ensures r.ChopRule? && 0 < r.len <= |s|
  {
    if IsSpace(s[0]) then ChopRule(Run(s, IsSpace), Space)
    else if KeywordAt(s, LegacyClassKeywords, false).Some? then ChopRule(|KeywordAt(s, LegacyClassKeywords, false).value|, ClassKeyword)
    else if KeywordAt(s, PublicKeywords, false).Some? then ChopRule(|KeywordAt(s, PublicKeywords, false).value|, PublicKeyword)
    else if Run(s, IsWordChar) > 0 then ChopRule(Run(s, IsWordChar), Ident)
    else Punctuation(s, false)
  }

  /** The token `next` returns on the non-empty text `s`: always a non-empty prefix of `s`. */
  function Lex(d: Dialect, s: string): (t: Token)
    requires s != []
    ensures 0 < |t.text| <= |s| && t.text == s[..|t.text|]
  {
    if d == Legacy then
      var r := LegacyRule(s);
      Token(s[..r.len], r.kind)
    else
      match CoreRule(s)
      case ChopRule(n, k) => Token(s[..n], k)
      case BlockCommentRule => Token(s[..BlockScan(s, 0)], Comment)
      case StringLiteralRule(q) => Token(s[..StringScan(s, q)], StringLiteral)
  }

  // ---------------------------------------------------------------------------
  // Properties of the lexers

  /** The tokens `next` returns, one after the other, until it returns `undefined`. */
  function Tokens(d: Dialect, s: string): (r: seq<Token>)
    ensures |r| <= |s| && (r == [] <==> s == [])
    decreases |s|
  {
    if s == [] then [] else
      var t := Lex(d, s);
      [t] + Tokens(d, s[|t.text|..])
  }

  function Concat(ts: seq<Token>): string
  {
    if ts == [] then "" else ts[0].text + Concat(ts[1..])
  }

  /** Lossless and always making progress: every token is non-empty and together they spell the input. */
  lemma {:induction false} TokensAreLossless(d: Dialect, s: string)
    ensures Concat(Tokens(d, s)) == s
    ensures forall t :: t in Tokens(d, s) ==> t.text != []
    decreases |s|
  {
    if s != [] {
      var t := Lex(d, s);
      TokensAreLossless(d, s[|t.text|..]);
      assert Tokens(d, s)[1..] == Tokens(d, s[|t.text|..]);
      assert s == t.text + s[|t.text|..];
    }
  }

  /** `Lex` in terms of the rule that fires. */
  lemma LexOfRule(d: Dialect, s: string)
    requires s != []
    ensures d == Legacy ==> Lex(d, s) == Token(s[..LegacyRule(s).len], LegacyRule(s).kind)
    ensures d == Core && CoreRule(s).ChopRule? ==> Lex(d, s) == Token(s[..CoreRule(s).len], CoreRule(s).kind)
  {
  }

  /** `::` is tried before `:`. */
  lemma DoubleColonFirst(d: Dialect, s: string)
    requires StartsWith(s, "::")
    ensures Lex(d, s) == Token("::", ColumnColumn)
  {
    assert s[..2] == "::";
    if d == Legacy { LegacyDoubleColon(s); } else { CoreDoubleColon(s); }
  }

  lemma CoreDoubleColon(s: string)
    requires StartsWith(s, "::")
    ensures CoreRule(s) == ChopRule(2, ColumnColumn)
  {
    assert s[0] == ':' && !IsWordChar(s[0]) && !IsSpace(s[0]);
    assert Run(s, IsWordChar) == 0;
    assert Punctuation(s, true) == ChopRule(2, ColumnColumn);
    NonWordStartRule(s);
    assert !StartsWith(s, "/*") && LineCommentLength(s).None?;
  }

  lemma LegacyDoubleColon(s: string)
    requires StartsWith(s, "::")
    ensures LegacyRule(s) == ChopRule(2, ColumnColumn)
  {
    assert s[0] == ':' && !IsWordChar(s[0]) && !IsSpace(s[0]);
    assert Run(s, IsWordChar) == 0;
    assert Punctuation(s, false) == ChopRule(2, ColumnColumn);
    if KeywordAt(s, LegacyClassKeywords, false).Some? { KeywordStartsWithWordChar(s, LegacyClassKeywords, false); }
    if KeywordAt(s, PublicKeywords, false).Some? { KeywordStartsWithWordChar(s, PublicKeywords, false); }
  }

  lemma KeywordStartsWithWordChar(s: string, keywords: seq<string>, bounded: bool)
    requires s != [] && forall k :: k in keywords ==> k != [] && IsWordChar(k[0])
    requires KeywordAt(s, keywords, bounded).Some?
    ensures IsWordChar(s[0])
  {
    var k := KeywordAt(s, keywords, bounded).value;
    assert s[..|k|][0] == k[0];
  }

  /** On a word character, `next` only has the keyword and identifier rules left to try. */
  lemma WordStartRule(s: string)
    requires s != [] && IsWordChar(s[0])
    ensures CoreRule(s) ==
      if KeywordAt(s, ClassKeywords, true).Some? then ChopRule(|KeywordAt(s, ClassKeywords, true).value|, ClassKeyword)
      else if KeywordAt(s, PublicKeywords, true).Some? then ChopRule(|KeywordAt(s, PublicKeywords, true).value|, PublicKeyword)
      else ChopRule(Run(s, IsWordChar), Ident)
  {
    var c := s[0];
    assert !IsSpace(c) && c != '/' && c != '#' && c != '\'' && c != '"';
    assert !StartsWith(s, "/*") && !StartsWith(s, "//") by { if |s| >= 2 { assert s[..2][0] == c; } }
    assert LineCommentLength(s).None?;
    assert Run(s, IsWordChar) > 0;
  }

  /** Elsewhere no keyword or identifier token can start. */
  lemma NonWordStartRule(s: string)
    requires s != [] && !IsWordChar(s[0])
    ensures KeywordAt(s, ClassKeywords, true).None? && KeywordAt(s, PublicKeywords, true).None?
    ensures CoreRule(s).ChopRule? ==> CoreRule(s).kind !in {ClassKeyword, PublicKeyword, Ident}
  {
    if KeywordAt(s, ClassKeywords, true).Some? { KeywordStartsWithWordChar(s, ClassKeywords, true); }
    if KeywordAt(s, PublicKeywords, true).Some? { KeywordStartsWithWordChar(s, PublicKeywords, true); }
    assert Run(s, IsWordChar) == 0;
  }

  /**
   * `class`, `struct` and `interface` are ClassKeyword tokens exactly when they end at a
   * word boundary; the token is the keyword.
   */
  lemma ClassKeywordNeedsBoundary(s: string)
    requires s != []
    ensures Lex(Core, s).kind == ClassKeyword <==> KeywordAt(s, ClassKeywords, true).Some?
    ensures KeywordAt(s, ClassKeywords, true).Some? ==> Lex(Core, s).text == KeywordAt(s, ClassKeywords, true).value
  {
    if IsWordChar(s[0]) { WordStartRule(s); } else { NonWordStartRule(s); }
  }

  /** `public`, `private` and `protected`, at a word boundary, are PublicKeyword tokens. */
  lemma PublicKeywordNeedsBoundary(s: string)
    requires s != [] && KeywordAt(s, ClassKeywords, true).None?
    ensures Lex(Core, s).kind == PublicKeyword <==> KeywordAt(s, PublicKeywords, true).Some?
    ensures KeywordAt(s, PublicKeywords, true).Some? ==> Lex(Core, s).text == KeywordAt(s, PublicKeywords, true).value
  {
    if IsWordChar(s[0]) { WordStartRule(s); } else { NonWordStartRule(s); }
  }

  /** Any other word is one Ident token spanning the greedy `\w` run (see RunIsMaximal). */
  lemma WordIsOneIdent(d: Dialect, s: string)
    requires s != [] && IsWordChar(s[0])
    requires d == Core ==> KeywordAt(s, ClassKeywords, true).None? && KeywordAt(s, PublicKeywords, true).None?
    requires d == Legacy ==> KeywordAt(s, LegacyClassKeywords, false).None? && KeywordAt(s, PublicKeywords, false).None?
    ensures Lex(d, s) == Token(s[..Run(s, IsWordChar)], Ident)
  {
    if d == Core {
      WordStartRule(s);
    } else {
      assert !IsSpace(s[0]);
    }
    LexOfRule(d, s);
  }

  /** The catch-all rule: an Unknown token is a single character. */
  lemma UnknownIsOneChar(d: Dialect, s: string)
    requires s != [] && Lex(d, s).kind == Unknown
    ensures Lex(d, s).text == [s[0]]
  {
  }

  /**
   * A StringLiteral token is only ever the opening quote: the loop of
   * `tokenizeStringLiteral` finds the quote it starts on and breaks at once.
   */
  lemma StringLiteralIsTheQuote(s: string)
    requires s != []
    ensures Lex(Core, s).kind == StringLiteral <==> (s[0] == '\'' || s[0] == '"')
    ensures Lex(Core, s).kind == StringLiteral ==> Lex(Core, s).text == [s[0]]
  {
    if s[0] == '\'' || s[0] == '"' {
      var q := if s[0] == '\'' then Single else Double;
      assert CoreRule(s) == StringLiteralRule(q);
      assert !StartsWith(s, BackslashQuote(q));
      assert StringScan(s, q) == 1;
    } else {
      assert !CoreRule(s).StringLiteralRule?;
    }
  }

  // A text starting with `/*` gives one Comment token, which runs until the nesting counter returns to zero.
  lemma BlockCommentToken(s: string)
    requires StartsWith(s, "/*")
    ensures Lex(Core, s) == Token(s[..BlockScan(s, 0)], Comment)
    ensures 2 <= BlockScan(s, 0)
  {
    assert !IsSpace(s[0]);
    PairIsPrefix(s, '/', '*');
  }

  // The block-comment scan either runs to the end of the text or stops right after a `*/`.
  lemma {:induction false} BlockScanEnd(s: string, layer: int)
    ensures BlockScan(s, layer) == |s| || (2 <= BlockScan(s, layer) && s[BlockScan(s, layer) - 2] == '*' && s[BlockScan(s, layer) - 1] == '/')
    decreases |s|
  {
    if StartsWithPair(s, '/', '*') {
      BlockScanEnd(s[2..], layer + 1);
    } else if StartsWithPair(s, '*', '/') {
      if layer - 1 != 0 {
        BlockScanEnd(s[2..], layer - 1);
      }
    } else if s != [] {
      BlockScanEnd(s[1..], layer);
    }
  }

  /** An opening marker raises the nesting counter. */
  lemma BlockScanOpen(t: string, layer: int)
    ensures BlockScan("/*" + t, layer) == 2 + BlockScan(t, layer + 1)
  {
    var s := "/*" + t;
    assert s[0] == '/' && s[1] == '*';
    assert s[2..] == t;
  }

  /** A closing marker lowers the counter and ends the scan when it reaches zero. */
  lemma BlockScanClose(t: string, layer: int)
    ensures BlockScan("*/" + t, layer) == if layer == 1 then 2 else 2 + BlockScan(t, layer - 1)
  {
    var s := "*/" + t;
    assert s[0] == '*' && s[1] == '/';
    assert s[2..] == t;
  }

  /** One step of the string-literal scan, in the form the scanning loop takes it: the escape. */
  lemma StringScanEscape(s: string, q: QuoteType)
    requires QuoteChar(q) in s && StartsWith(s, BackslashQuote(q))
    ensures QuoteChar(q) in s[2..] && StringScan(s, q) == 2 + StringScan(s[2..], q)
    ensures FirstIndex(s[2..], QuoteChar(q)) < FirstIndex(s, QuoteChar(q))
  {
    var c := QuoteChar(q);
    assert s[0] != c && s[1] != c && FirstIndex(s, c) >= 2;
    FirstIndexOfTail(s[1..], c);
    FirstIndexOfTail(s, c);
  }

  /** The closing quote ends the scan. */
  lemma StringScanQuote(s: string, q: QuoteType)
    requires QuoteChar(q) in s && !StartsWith(s, BackslashQuote(q)) && StartsWith(s, [QuoteChar(q)])
    ensures StringScan(s, q) == 1
  {
    assert s[..1][0] == s[0];
  }

  /** Any other character is taken one at a time. */
  lemma StringScanOther(s: string, q: QuoteType)
    requires QuoteChar(q) in s && !StartsWith(s, BackslashQuote(q)) && !StartsWith(s, [QuoteChar(q)])
    ensures QuoteChar(q) in s[1..] && StringScan(s, q) == 1 + StringScan(s[1..], q)
    ensures FirstIndex(s[1..], QuoteChar(q)) < FirstIndex(s, QuoteChar(q))
  {
    assert s[..1] == [s[0]];
    FirstIndexOfTail(s, QuoteChar(q));
  }

  lemma FirstIndexOfTail(s: string, c: char)
    requires c in s && s[0] != c
    ensures c in s[1..] && FirstIndex(s, c) == 1 + FirstIndex(s[1..], c)
  {
    assert s == [s[0]] + s[1..];
  }

  // Nested comments: the inner closing marker of `/*/**/*/ tail` does not end the Comment token.
  lemma NestedBlockComment(tail: string)
    ensures Lex(Core, "/*" + ("/*" + ("*/" + ("*/" + tail)))) == Token("/*/**/*/", Comment)
  {
    var s := "/*" + ("/*" + ("*/" + ("*/" + tail)));
    BlockScanOpen("/*" + ("*/" + ("*/" + tail)), 0);
    BlockScanOpen("*/" + ("*/" + tail), 1);
    BlockScanClose("*/" + tail, 2);
    BlockScanClose(tail, 1);
    assert StartsWith(s, "/*") by { assert s[..2] == "/*"; }
    BlockCommentToken(s);
    assert s[..8] == "/*/**/*/";
  }

  /** An unterminated comment, one where no `*` is followed by `/`, swallows the rest of the text. */
  lemma {:induction false} UnterminatedBlockComment(s: string, layer: int)
    requires layer >= 1
    requires forall i :: 0 <= i < |s| - 1 ==> !(s[i] == '*' && s[i + 1] == '/')
    ensures BlockScan(s, layer) == |s|
    decreases |s|
  {
    if s != [] {
      var k := if StartsWithPair(s, '/', '*') then 2 else 1;
      assert !StartsWithPair(s, '*', '/') by {
        if |s| >= 2 { assert !(s[0] == '*' && s[1] == '/'); }
      }
      forall i | 0 <= i < |s[k..]| - 1 ensures !(s[k..][i] == '*' && s[k..][i + 1] == '/') {
        assert s[k..][i] == s[k + i] && s[k..][i + 1] == s[k + i + 1];
      }
      UnterminatedBlockComment(s[k..], if k == 2 then layer + 1 else layer);
    }
  }

  /** A `#` or `//` line that ends in a newline is one Comment token, through the newline. */
  lemma LineComment(prefix: string, body: string, rest: string)
    requires prefix == "#" || prefix == "//"
    requires forall i :: 0 <= i < |body| ==> !IsLineTerminator(body[i])
    ensures var s := prefix + body + "\n" + rest; Lex(Core, s) == Token(prefix + body + "\n", Comment)
  {
    var s := prefix + body + "\n" + rest;
    var n := |prefix| + |body| + 1;
    LineCommentLengthOf(prefix, body, rest);
    assert !StartsWith(s, "/*") by {
      if prefix == "//" { assert s[1] == '/'; }
    }
    assert !IsSpace(s[0]);
    assert CoreRule(s) == ChopRule(n, Comment);
    assert s[..n] == prefix + body + "\n";
  }

  lemma LineCommentLengthOf(prefix: string, body: string, rest: string)
    requires prefix == "#" || prefix == "//"
    requires forall i :: 0 <= i < |body| ==> !IsLineTerminator(body[i])
    ensures LineCommentLength(prefix + body + "\n" + rest) == Some(|prefix| + |body| + 1)
  {
    var s := prefix + body + "\n" + rest;
    var p := |prefix|;
    assert s[p..] == body + ("\n" + rest);
    RunOfPrefix(body, "\n" + rest);
    assert s[p + |body|] == '\n';
    if prefix == "//" { assert s[0] == '/' && s[..2] == "//"; } else { assert s[0] == '#'; }
  }

  lemma {:induction false} RunOfPrefix(body: string, rest: string)
    requires forall i :: 0 <= i < |body| ==> !IsLineTerminator(body[i])
    requires rest != [] && IsLineTerminator(rest[0])
    ensures Run(body + rest, NotLineTerminator) == |body|
    decreases |body|
  {
    if body != [] {
      assert (body + rest)[1..] == body[1..] + rest;
      RunOfPrefix(body[1..], rest);
    }
  }

  /** Without a newline, a `#` or `//` line is not a comment. */
  lemma LineWithoutNewline(s: string)
    requires s != [] && (s[0] == '#' || StartsWith(s, "//"))
    requires '\n' !in s
    ensures Lex(Core, s).kind != Comment
  {
    assert LineCommentLength(s).None?;
    assert !StartsWith(s, "/*") by { if StartsWith(s, "//") { assert s[1] == '/'; } }
    assert !IsSpace(s[0]);
    assert !IsWordChar(s[0]);
  }

  /** The legacy tokenizer has no comment, string-literal or `=` tokens. */
  lemma LegacyKinds(s: string)
    requires s != []
    ensures Lex(Legacy, s).kind !in {Comment, StringLiteral, Eq}
  {
  }

  /** The legacy keyword patterns have no word boundary: `classy` starts with a ClassKeyword token `class`. */
  lemma LegacyKeywordWithoutBoundary(rest: string)
    ensures Lex(Legacy, "class" + rest) == Token("class", ClassKeyword)
  {
    var s := "class" + rest;
    assert StartsWith(s, "class") by { assert s[..5] == "class"; }
    assert !IsSpace(s[0]);
    assert KeywordAt(s, LegacyClassKeywords, false) == Some("class");
    assert s[..5] == "class";
  }

  /**
   * What a token's kind says about its text: an identifier is a run of word characters,
   * a keyword one of its list, a punctuation token its one symbol, a space token a run of
   * whitespace.
   */
  predicate WellFormed(d: Dialect, t: Token)
  {
    && (t.kind == Ident ==> forall i :: 0 <= i < |t.text| ==> IsWordChar(t.text[i]))
    && (t.kind == Space ==> forall i :: 0 <= i < |t.text| ==> IsSpace(t.text[i]))
    && (t.kind == PublicKeyword ==> t.text in PublicKeywords)
    && (t.kind == ClassKeyword ==> t.text in (if d == Core then ClassKeywords else LegacyClassKeywords))
    && (SymbolText(t.kind).Some? ==> t.text == SymbolText(t.kind).value)
  }

  /** Every token either lexer returns is well formed. */
  lemma LexIsWellFormed(d: Dialect, s: string)
    requires s != []
    ensures WellFormed(d, Lex(d, s))
  {
    var r := if d == Legacy then LegacyRule(s) else CoreRule(s);
    LexOfRule(d, s);
    if r.ChopRule? {
      if r.kind == Ident {
        IdentIsRun(d, s, r);
        RunIsMaximal(s, IsWordChar);
      } else if r.kind == Space {
        SpaceIsRun(d, s, r);
        RunIsMaximal(s, IsSpace);
      }
      KeywordRuleFits(d, s, r);
      SymbolRuleFits(d, s, r);
    }
  }

  /** A keyword rule takes one of the keywords of its dialect. */
  lemma KeywordRuleFits(d: Dialect, s: string, r: Rule)
    requires s != [] && r == (if d == Legacy then LegacyRule(s) else CoreRule(s)) && r.ChopRule?
    ensures r.kind == PublicKeyword ==> s[..r.len] in PublicKeywords
    ensures r.kind == ClassKeyword ==> s[..r.len] in (if d == Core then ClassKeywords else LegacyClassKeywords)
  {
  }

  /** A punctuation rule takes the one text of its kind. */
  lemma SymbolRuleFits(d: Dialect, s: string, r: Rule)
    requires s != [] && r == (if d == Legacy then LegacyRule(s) else CoreRule(s)) && r.ChopRule?
    ensures SymbolText(r.kind).Some? ==> s[..r.len] == SymbolText(r.kind).value
  {
  }

  /** An identifier rule takes the whole run of word characters. */
  lemma IdentIsRun(d: Dialect, s: string, r: Rule)
    requires s != [] && r == (if d == Legacy then LegacyRule(s) else CoreRule(s)) && r.ChopRule? && r.kind == Ident
    ensures r.len == Run(s, IsWordChar)
  {
  }

  /** A white-space rule takes the whole run of white space. */
  lemma SpaceIsRun(d: Dialect, s: string, r: Rule)
    requires s != [] && r == (if d == Legacy then LegacyRule(s) else CoreRule(s)) && r.ChopRule? && r.kind == Space
    ensures r.len == Run(s, IsSpace)
  {
  }
}
