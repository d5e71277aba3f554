/**
 * What the productions of the recursive-descent parser guarantee about what they return:
 * the shape of names, segments and bracketed groups, the bounds on lists, and how the
 * class-name candidate and the method name are chosen.
 */
module GrammarProperties {
  import opened Options
  import opened Text
  import opened Lexicon
  import opened Algorithm
  import opened Grammar

  // ---------------------------------------------------------------------------
  // Tokens after trivia

  /**
   * `nextGoodToken` returns a well-formed token that is not trivia, cut from the text right
   * before the rest it leaves: pushing it back gives a suffix of the input.
   */
  lemma {:induction false} NextGoodIsSuffix(d: Dialect, s: string)
    ensures IsSuffix(NextGood(d, s).rest, s)
    ensures NextGood(d, s).value.Some? ==> IsSuffix(PushBack(NextGood(d, s).value.value, NextGood(d, s).rest), s)
    decreases |s|
  {
    if s != [] {
      var t := Lex(d, s);
      var rest := s[|t.text|..];
      assert t.text + rest == s;
      if IsTrivia(d, t.kind) {
        NextGoodIsSuffix(d, rest);
        SuffixTransitive(NextGood(d, rest).rest, rest, s);
        if NextGood(d, rest).value.Some? {
          SuffixTransitive(PushBack(NextGood(d, rest).value.value, NextGood(d, rest).rest), rest, s);
        }
      }
    }
  }

  lemma {:induction false} NextGoodIsWellFormed(d: Dialect, s: string)
    requires NextGood(d, s).value.Some?
    ensures WellFormed(d, NextGood(d, s).value.value)
    decreases |s|
  {
    var t := Lex(d, s);
    if IsTrivia(d, t.kind) {
      NextGoodIsWellFormed(d, s[|t.text|..]);
    } else {
      LexIsWellFormed(d, s);
    }
  }

  /** A well-formed bracket token is the one bracket character. */
  lemma BracketToken(d: Dialect, t: Token, b: Bracket)
    requires WellFormed(d, t)
    ensures t.kind == Opening(b) ==> t.text == [OpenChar(b)]
    ensures t.kind == Closing(b) ==> t.text == [CloseChar(b)]
  {
  }

  // ---------------------------------------------------------------------------
  // Qualified names

  /** The characters a qualified name is made of. */
  predicate IsNameChar(c: char)
  {
    IsWordChar(c) || c == ':' || c == '~'
  }

  /** A non-empty text of name characters. */
  predicate IsNameText(s: string)
  {
    s != [] && forall i :: 0 <= i < |s| ==> IsNameChar(s[i])
  }

  /** The tokens the loop of `parseQualifiedName` takes after a token of kind `last`. */
  function QualTokens(d: Dialect, s: string, last: Option<TokenType>): seq<Token>
    decreases |s|
  {
    var g := NextGood(d, s);
    match g.value
    case None => []
    case Some(t) =>
      if !IsNameKind(t.kind) || last == Some(t.kind) then [] else [t] + QualTokens(d, g.rest, Some(t.kind))
  }

  /** Well-formed name tokens, the first differing in kind from `last` and each from the one before. */
  predicate NameTokens(d: Dialect, ts: seq<Token>, last: Option<TokenType>)
  {
    && (forall i :: 0 <= i < |ts| ==> IsNameKind(ts[i].kind) && WellFormed(d, ts[i]))
    && (forall i :: 0 < i < |ts| ==> ts[i].kind != ts[i - 1].kind)
    && (ts != [] && last.Some? ==> ts[0].kind != last.value)
  }

  /**
   * The loop of `parseQualifiedName` appends the texts of the tokens it takes: each an
   * identifier, `::` or `~`, never two of the same kind in a row, with the trivia between
   * them dropped.
   */
  lemma {:induction false} QualLoopTokens(d: Dialect, s: string, name: string, last: Option<TokenType>)
    ensures QualLoop(d, s, name, last).value == Some(name + Concat(QualTokens(d, s, last)))
    ensures NameTokens(d, QualTokens(d, s, last), last)
    decreases |s|
  {
    var g := NextGood(d, s);
    if g.value.Some? && IsNameKind(g.value.value.kind) && last != Some(g.value.value.kind) {
      var t := g.value.value;
      NextGoodIsWellFormed(d, s);
      QualLoopTokens(d, g.rest, name + t.text, Some(t.kind));
      var ts := QualTokens(d, g.rest, Some(t.kind));
      assert QualTokens(d, s, last) == [t] + ts;
      assert QualLoop(d, s, name, last) == QualLoop(d, g.rest, name + t.text, Some(t.kind));
      ConsNameTokens(d, t, ts, last);
      Assoc(name, t.text, Concat(ts));
    } else {
      assert QualTokens(d, s, last) == [];
      assert name + Concat([]) == name;
    }
  }

  /** A name token in front of name tokens that follow it. */
  lemma ConsNameTokens(d: Dialect, t: Token, ts: seq<Token>, last: Option<TokenType>)
    requires IsNameKind(t.kind) && WellFormed(d, t) && last != Some(t.kind)
    requires NameTokens(d, ts, Some(t.kind))
    ensures NameTokens(d, [t] + ts, last)
    ensures Concat([t] + ts) == t.text + Concat(ts)
  {
    assert ([t] + ts)[1..] == ts;
    forall i | 0 < i < |[t] + ts| ensures ([t] + ts)[i].kind != ([t] + ts)[i - 1].kind {
      assert ([t] + ts)[i] == ts[i - 1];
    }
  }

  /** The text of well-formed name tokens is made of name characters only: no space, no comment. */
  lemma {:induction false} NameTokensText(d: Dialect, ts: seq<Token>, last: Option<TokenType>)
    requires NameTokens(d, ts, last)
    ensures forall i :: 0 <= i < |Concat(ts)| ==> IsNameChar(Concat(ts)[i])
    decreases |ts|
  {
    if ts != [] {
      var t := ts[0];
      assert NameTokens(d, ts[1..], Some(t.kind)) by {
        forall i | 0 < i < |ts[1..]| ensures ts[1..][i].kind != ts[1..][i - 1].kind {
          assert ts[1..][i] == ts[i + 1] && ts[1..][i - 1] == ts[i];
        }
      }
      NameTokensText(d, ts[1..], Some(t.kind));
      assert IsNameKind(t.kind) && WellFormed(d, t);
      forall i | 0 <= i < |Concat(ts)| ensures IsNameChar(Concat(ts)[i]) {
        if i < |t.text| {
          assert Concat(ts)[i] == t.text[i];
        } else {
          assert Concat(ts)[i] == Concat(ts[1..])[i - |t.text|];
        }
      }
    }
  }

  /**
   * `parseQualifiedName` returns the texts of a non-empty run of name tokens, and so a
   * non-empty text of word characters, `:` and `~` only.
   */
  lemma QualifiedNameShape(d: Dialect, s: string)
    requires QualifiedName(d, s).value.Some?
    ensures var ts := QualTokens(d, s, None);
      ts != [] && NameTokens(d, ts, None) && QualifiedName(d, s).value.value == Concat(ts)
    ensures IsNameText(QualifiedName(d, s).value.value)
  {
    QualLoopTokens(d, s, "", None);
    assert "" + Concat(QualTokens(d, s, None)) == Concat(QualTokens(d, s, None));
    NameTokensText(d, QualTokens(d, s, None), None);
  }

  // ---------------------------------------------------------------------------
  // Class names and base lists

  /**
   * `parseCommaSeparatedList` gives up at its 99th comma: a template argument list that
   * parses has at most 99 names, and the names already read stay in front.
   */
  lemma {:induction false} ArgListBound(d: Dialect, s: string, items: seq<ClassName>, count: nat)
    requires |items| == count
    ensures ArgListLoop(d, s, items, count).value.Some? ==>
      |ArgListLoop(d, s, items, count).value.value| <= 99 &&
      ArgListLoop(d, s, items, count).value.value[..|items|] == items
    decreases |s|
  {
    if count < 99 && ClassNameP(d, s).value.Some? {
      var last, next, items' := ArgListTurn(d, s, items, count);
      assert items'[..|items|] == items;
      if !last {
        ArgListBound(d, next, items', count + 1);
        var r := ArgListLoop(d, s, items, count).value;
        if r.Some? {
          PrefixOfPrefix(r.value, items', items);
        }
      }
    } else {
      assert ArgListLoop(d, s, items, count).value.None?;
    }
  }

  /**
   * One turn of `parseCommaSeparatedList` over class names, once a name has parsed: the loop
   * either ends with the names read so far or goes on after a comma from a shorter text.
   */
  lemma ArgListTurn(d: Dialect, s: string, items: seq<ClassName>, count: nat)
    returns (last: bool, next: string, items': seq<ClassName>)
    requires count < 99 && ClassNameP(d, s).value.Some?
    ensures items' == items + [ClassNameP(d, s).value.value]
    ensures last ==> ArgListLoop(d, s, items, count).value == Some(items')
    ensures !last ==> |next| < |s| && ArgListLoop(d, s, items, count) == ArgListLoop(d, next, items', count + 1)
  {
    var item := ClassNameP(d, s);
    items' := items + [item.value.value];
    var g := NextGood(d, item.rest);
    last := !(g.value.Some? && g.value.value.kind == Comma);
    next := g.rest;
  }

  /** The same bound for the list of base classes. */
  lemma {:induction false} BaseListBound(d: Dialect, s: string, items: seq<BaseDecl>, count: nat)
    requires |items| == count
    ensures BaseListLoop(d, s, items, count).value.Some? ==>
      |BaseListLoop(d, s, items, count).value.value| <= 99 &&
      BaseListLoop(d, s, items, count).value.value[..|items|] == items
    decreases |s|
  {
    if count < 99 && Base(d, s).value.Some? {
      var last, next, items' := BaseListTurn(d, s, items, count);
      assert items'[..|items|] == items;
      if !last {
        BaseListBound(d, next, items', count + 1);
        var r := BaseListLoop(d, s, items, count).value;
        if r.Some? {
          PrefixOfPrefix(r.value, items', items);
        }
      }
    } else {
      assert BaseListLoop(d, s, items, count).value.None?;
    }
  }

  /** One turn of `parseCommaSeparatedList` over bases, once a base has parsed. */
  lemma BaseListTurn(d: Dialect, s: string, items: seq<BaseDecl>, count: nat)
    returns (last: bool, next: string, items': seq<BaseDecl>)
    requires count < 99 && Base(d, s).value.Some?
    ensures items' == items + [Base(d, s).value.value]
    ensures last ==> BaseListLoop(d, s, items, count).value == Some(items')
    ensures !last ==> |next| < |s| && BaseListLoop(d, s, items, count) == BaseListLoop(d, next, items', count + 1)
  {
    var item := Base(d, s);
    items' := items + [item.value.value];
    var g := NextGood(d, item.rest);
    last := !(g.value.Some? && g.value.value.kind == Comma);
    next := g.rest;
  }

  /** A prefix of a prefix is a prefix. */
  lemma PrefixOfPrefix<T>(r: seq<T>, a: seq<T>, b: seq<T>)
    requires |a| <= |r| && r[..|a|] == a && |b| <= |a| && a[..|b|] == b
    ensures r[..|b|] == b
  {
    assert r[..|b|] == r[..|a|][..|b|];
  }

  /** A base list that parses holds between one and 99 bases. */
  lemma BaseListSize(d: Dialect, s: string)
    requires BaseList(d, s).value.Some?
    ensures 1 <= |BaseList(d, s).value.value| <= 99
  {
    BaseListBound(d, s, [], 0);
  }

  /**
   * A class name is a qualified name with its arguments: none when another token than `<`
   * follows the name, an empty list exactly when the text ends after the name, and otherwise
   * between one and 99 names.
   */
  lemma ClassNameArgs(d: Dialect, s: string)
    requires ClassNameP(d, s).value.Some?
    ensures var c := ClassNameP(d, s).value.value;
      var q := QualifiedName(d, s);
      var g := NextGood(d, q.rest);
      && q.value == Some(c.name)
      && (c.args == Some([]) <==> g.value.None?)
      && (c.args.None? <==> g.value.Some? && g.value.value.kind != LAngleBracket)
      && (c.args.Some? ==> |c.args.value| <= 99)
  {
    var c := ClassNameP(d, s).value.value;
    var q := QualifiedName(d, s);
    var g := NextGood(d, q.rest);
    assert q.value.Some?;
    if g.value.None? {
      assert c == ClassName(q.value.value, Some([]));
    } else if g.value.value.kind != LAngleBracket {
      assert c == ClassName(q.value.value, None);
    } else {
      var a := ArgListLoop(d, g.rest, [], 0);
      ArgListBound(d, g.rest, [], 0);
      assert c == ClassName(q.value.value, a.value) && a.value.Some?;
    }
  }

  /**
   * A base starts with an access keyword or an identifier; the access is present exactly
   * when the keyword is, and is then one of `public`, `private` and `protected`.
   */
  lemma BaseAccess(d: Dialect, s: string)
    requires Base(d, s).value.Some?
    ensures NextGood(d, s).value.Some?
    ensures var b := Base(d, s).value.value;
      var t := NextGood(d, s).value.value;
      && (t.kind == PublicKeyword || t.kind == Ident)
      && (b.access.Some? <==> t.kind == PublicKeyword)
      && (b.access.Some? ==> b.access.value == t.text && b.access.value in PublicKeywords)
  {
    NextGoodIsWellFormed(d, s);
  }

  // ---------------------------------------------------------------------------
  // Bracketed groups and segments

  function OpenChar(b: Bracket): char
  {
    match b
    case Paren => '('
    case Angle => '<'
    case Square => '['
  }

  function CloseChar(b: Bracket): char
  {
    match b
    case Paren => ')'
    case Angle => '>'
    case Square => ']'
  }

  /**
   * `v` is `content` followed by the text read from `s` up to `rest`, and ends with the
   * closing character of `b`.
   */
  predicate ReadUpToClose(s: string, rest: string, content: string, v: string, b: Bracket)
  {
    IsSuffix(rest, s) && v == content + s[..|s| - |rest|] && |v| > |content| && v[|v| - 1] == CloseChar(b)
  }

  /**
   * The loop of `parseBracketContent` copies the raw text it reads, trivia included, and what
   * it returns ends with a closing character; where it stops is `BracketLoopCloses`.
   */
  lemma {:induction false} BracketLoopShape(d: Dialect, s: string, b: Bracket, owed: int, content: string)
    requires BracketLoop(d, s, b, owed, content).value.Some?
    ensures ReadUpToClose(s, BracketLoop(d, s, b, owed, content).rest, content,
                          BracketLoop(d, s, b, owed, content).value.value, b)
    decreases |s|
  {
    var t := Lex(d, s);
    var rest := s[|t.text|..];
    assert t.text + rest == s;
    var owed' := OwedAfter(t.kind, b, owed);
    if t.kind == Closing(b) && owed' == 0 {
      LexIsWellFormed(d, s);
      BracketToken(d, t, b);
      ReadLast(s, t.text, rest, content, b);
    } else {
      BracketLoopShape(d, rest, b, owed', content + t.text);
      var r' := BracketLoop(d, rest, b, owed', content + t.text);
      ReadMore(s, t.text, rest, content, r'.rest, r'.value.value, b);
    }
  }

  lemma ReadLast(s: string, t: string, rest: string, content: string, b: Bracket)
    requires s == t + rest && t == [CloseChar(b)]
    ensures ReadUpToClose(s, rest, content, content + t, b)
  {
    assert s[..|s| - |rest|] == t;
  }

  lemma ReadMore(s: string, t: string, rest: string, content: string, tail: string, v: string, b: Bracket)
    requires s == t + rest && ReadUpToClose(rest, tail, content + t, v, b)
    ensures ReadUpToClose(s, tail, content, v, b)
  {
    SuffixTransitive(tail, rest, s);
    assert s[..|s| - |tail|] == t + rest[..|rest| - |tail|];
    Assoc(content, t, rest[..|rest| - |tail|]);
  }

  /**
   * `parseBracketContent` returns a piece of the input that starts with the opening character
   * and ends with a closing one; the rest of the text follows it. Which closing token ends it
   * is `BracketContentCloses`.
   */
  lemma BracketContentShape(d: Dialect, s: string, b: Bracket)
    requires BracketContent(d, s, b).value.Some?
    ensures var r := BracketContent(d, s, b);
      var v := r.value.value;
      && IsGroup(v, b)
      && IsSuffix(v + r.rest, s)
  {
    var g := NextGood(d, s);
    NextGoodIsSuffix(d, s);
    NextGoodBracket(d, s, b);
    GroupAfterOpening(d, s, g.value.value, g.rest, b);
  }

  /** The loop of `parseBracketContent` started on the opening token `t`, cut from `s` before `rest`. */
  lemma GroupAfterOpening(d: Dialect, s: string, t: Token, rest: string, b: Bracket)
    requires IsSuffix(PushBack(t, rest), s) && t.text == [OpenChar(b)]
    requires BracketLoop(d, rest, b, 1, t.text).value.Some?
    ensures var r := BracketLoop(d, rest, b, 1, t.text);
      IsGroup(r.value.value, b) && IsSuffix(r.value.value + r.rest, s)
  {
    var r := BracketLoop(d, rest, b, 1, t.text);
    BracketLoopShape(d, rest, b, 1, t.text);
    GroupPieces(s, t.text, rest, r.rest, r.value.value, b);
  }

  /** The opening token `parseBracketContent` reads is the one opening character. */
  lemma NextGoodBracket(d: Dialect, s: string, b: Bracket)
    requires NextGood(d, s).value.Some? && NextGood(d, s).value.value.kind == Opening(b)
    ensures NextGood(d, s).value.value.text == [OpenChar(b)]
  {
    NextGoodIsWellFormed(d, s);
    BracketToken(d, NextGood(d, s).value.value, b);
  }

  /** An opening character, the raw text after it up to a closing character, then the rest. */
  lemma GroupPieces(s: string, open: string, rest: string, tail: string, v: string, b: Bracket)
    requires IsSuffix(open + rest, s) && open == [OpenChar(b)] && ReadUpToClose(rest, tail, open, v, b)
    ensures IsGroup(v, b) && IsSuffix(v + tail, s)
  {
    assert rest == rest[..|rest| - |tail|] + tail;
    Assoc(open, rest[..|rest| - |tail|], tail);
  }

  /** A text from an opening character of kind `b` to a closing one. */
  predicate IsGroup(v: string, b: Bracket)
  {
    |v| >= 2 && v[0] == OpenChar(b) && v[|v| - 1] == CloseChar(b)
  }

  // ---------------------------------------------------------------------------
  // Bracket balance, counted on the raw tokens

  /** The count of unmatched opening tokens after reading `ts`, starting from `owed`. */
  function Depth(ts: seq<Token>, b: Bracket, owed: int): int
    decreases |ts|
  {
    if ts == [] then owed else Depth(ts[1..], b, OwedAfter(ts[0].kind, b, owed))
  }

  /**
   * How many of the tokens `ts` are read until the count first comes back to zero, or None
   * when it never does.
   */
  function CloseIndex(ts: seq<Token>, b: Bracket, owed: int): Option<nat>
    decreases |ts|
  {
    if ts == [] then None
    else
      var o := OwedAfter(ts[0].kind, b, owed);
      if o == 0 then Some(1)
      else match CloseIndex(ts[1..], b, o)
        case None => None
        case Some(k) => Some(k + 1)
  }

  /** Reading one more token first: the depth of a longer prefix from the token after the first. */
  lemma DepthOfPrefix(ts: seq<Token>, j: nat, b: Bracket, owed: int)
    requires 0 < j <= |ts|
    ensures Depth(ts[..j], b, owed) == Depth(ts[1..][..j - 1], b, OwedAfter(ts[0].kind, b, owed))
  {
    assert ts[..j][1..] == ts[1..][..j - 1];
  }

  /**
   * From a positive count, `CloseIndex` is the first prefix at depth zero, and it ends with a
   * closing token; when it is None the count stays positive over every prefix.
   */
  lemma {:induction false} CloseIndexIsFirstZero(ts: seq<Token>, b: Bracket, owed: int)
    requires owed > 0
    ensures var r := CloseIndex(ts, b, owed);
      && (r.Some? ==> 0 < r.value <= |ts| && ts[r.value - 1].kind == Closing(b) && Depth(ts[..r.value], b, owed) == 0)
      && (r.Some? ==> forall j :: 0 <= j < r.value ==> Depth(ts[..j], b, owed) > 0)
      && (r.None? ==> forall j :: 0 <= j <= |ts| ==> Depth(ts[..j], b, owed) > 0)
    decreases |ts|
  {
    if ts != [] {
      var o := OwedAfter(ts[0].kind, b, owed);
      assert ts[..0] == [];
      if o == 0 {
        DepthOfPrefix(ts, 1, b, owed);
        assert ts[1..][..0] == [];
      } else {
        assert o > 0;
        CloseIndexIsFirstZero(ts[1..], b, o);
        var r := CloseIndex(ts, b, owed);
        forall j | 0 < j <= |ts| && (r.None? || j < r.value) ensures Depth(ts[..j], b, owed) > 0 {
          DepthOfPrefix(ts, j, b, owed);
        }
        if r.Some? {
          DepthOfPrefix(ts, r.value, b, owed);
          assert ts[r.value - 1] == ts[1..][r.value - 2];
        }
      }
    }
  }

  /**
   * `r` is what reading the tokens `ts` of the text `s` until the count first comes back to
   * zero gives: their text after `content`, with the text after them left; or a failure
   * with nothing left when the count never comes back to zero.
   */
  predicate ReadsToClose(ts: seq<Token>, s: string, b: Bracket, owed: int, content: string, r: Step<string>)
  {
    match CloseIndex(ts, b, owed)
    case None => r == Step(None, [])
    case Some(k) => k <= |ts| && r.value == Some(content + Concat(ts[..k])) && Concat(ts[..k]) + r.rest == s
  }

  /**
   * The loop of `parseBracketContent` reads the raw tokens of the text until the first one
   * that brings the count of unmatched opening tokens to zero, and returns what it had with
   * their text; when the count never comes back to zero it reads to the end and fails.
   */
  lemma {:induction false} BracketLoopCloses(d: Dialect, s: string, b: Bracket, owed: int, content: string)
    requires owed > 0
    ensures ReadsToClose(Tokens(d, s), s, b, owed, content, BracketLoop(d, s, b, owed, content))
    decreases |s|
  {
    if s != [] {
      var t := Lex(d, s);
      var rest := s[|t.text|..];
      var ts := Tokens(d, s);
      var o := OwedAfter(t.kind, b, owed);
      BracketTurn(d, s, b, owed, content, t, rest, ts);
      if o != 0 {
        BracketLoopCloses(d, rest, b, o, content + t.text);
        ReadsToCloseCons(t, Tokens(d, rest), ts, rest, s, b, owed, content, BracketLoop(d, rest, b, o, content + t.text));
      }
    }
  }

  /** A token that leaves the count positive, read in front of the rest. */
  lemma ReadsToCloseCons(t: Token, ts': seq<Token>, ts: seq<Token>, rest: string, s: string, b: Bracket, owed: int,
                         content: string, r: Step<string>)
    requires ts == [t] + ts' && s == t.text + rest && OwedAfter(t.kind, b, owed) != 0
    requires ReadsToClose(ts', rest, b, OwedAfter(t.kind, b, owed), content + t.text, r)
    ensures ReadsToClose(ts, s, b, owed, content, r)
  {
    CloseIndexCons(t, ts', b, owed, ts);
    match CloseIndex(ts', b, OwedAfter(t.kind, b, owed))
    case None =>
    case Some(k) =>
      var c := Concat(ts'[..k]);
      ConcatCons(t, ts', k, ts);
      Assoc(content, t.text, c);
      Assoc(t.text, c, r.rest);
  }

  /** One turn of the loop: the first token, then the loop from the text after it, or the end at the close. */
  lemma BracketTurn(d: Dialect, s: string, b: Bracket, owed: int, content: string, t: Token, rest: string, ts: seq<Token>)
    requires owed > 0 && s != [] && t == Lex(d, s) && rest == s[|t.text|..] && ts == Tokens(d, s)
    ensures ts == [t] + Tokens(d, rest) && t.text + rest == s
    ensures OwedAfter(t.kind, b, owed) == 0 ==>
      CloseIndex(ts, b, owed) == Some(1) && ts[..1] == [t] && Concat(ts[..1]) == t.text &&
      BracketLoop(d, s, b, owed, content) == Step(Some(content + t.text), rest)
    ensures OwedAfter(t.kind, b, owed) != 0 ==>
      BracketLoop(d, s, b, owed, content) == BracketLoop(d, rest, b, OwedAfter(t.kind, b, owed), content + t.text)
  {
    assert [t][1..] == [];
  }

  lemma CloseIndexCons(t: Token, ts': seq<Token>, b: Bracket, owed: int, ts: seq<Token>)
    requires ts == [t] + ts' && OwedAfter(t.kind, b, owed) != 0
    ensures CloseIndex(ts, b, owed) ==
      match CloseIndex(ts', b, OwedAfter(t.kind, b, owed))
      case None => None
      case Some(k) => Some(k + 1)
  {
    assert ts[1..] == ts';
  }

  lemma ConcatCons(t: Token, ts': seq<Token>, k: nat, ts: seq<Token>)
    requires ts == [t] + ts' && k <= |ts'|
    ensures Concat(ts[..k + 1]) == t.text + Concat(ts'[..k])
  {
    assert ts[..k + 1] == [t] + ts'[..k];
    assert ([t] + ts'[..k])[1..] == ts'[..k];
  }

  /**
   * `parseBracketContent` after an opening token: the token, then the raw tokens up to the
   * one that closes it, counted on tokens so that brackets inside comments do not count;
   * `undefined` when the text ends before the count comes back to zero.
   */
  lemma BracketContentCloses(d: Dialect, s: string, b: Bracket)
    requires NextGood(d, s).value.Some? && NextGood(d, s).value.value.kind == Opening(b)
    ensures var g := NextGood(d, s);
      var ts := Tokens(d, g.rest);
      var r := BracketContent(d, s, b);
      match CloseIndex(ts, b, 1)
      case None => r.value.None?
      case Some(k) => k <= |ts| && r.value == Some(g.value.value.text + Concat(ts[..k])) && Concat(ts[..k]) + r.rest == g.rest
  {
    var g := NextGood(d, s);
    assert BracketContent(d, s, b) == BracketLoop(d, g.rest, b, 1, g.value.value.text);
    BracketLoopCloses(d, g.rest, b, 1, g.value.value.text);
  }

  /** A name directly followed by a bracketed group of kind `b`. */
  predicate GroupAfterName(text: string, b: Bracket)
  {
    exists n :: 0 < n < |text| && IsNameText(text[..n]) && IsGroup(text[n..], b)
  }

  /** What a segment's type says about its text. */
  predicate SegmentFits(sg: Segment)
  {
    match sg.kind
    case Symbol => sg.text == "&" || sg.text == "*"
    case AttributeLike => IsGroup(sg.text, Square)
    case OperatorName => false
    case MacroLike => IsNameText(sg.text)
    case FunctionLikeWithParen => GroupAfterName(sg.text, Paren)
    case FunctionLikeWithAngleBrackets => GroupAfterName(sg.text, Angle)
    case FunctionLikeWithBrackets => GroupAfterName(sg.text, Square)
  }

  lemma SymbolSegmentFits(d: Dialect, s: string)
    requires SymbolSegment(d, s).value.Some?
    ensures SymbolSegment(d, s).value.value.kind == Symbol && SegmentFits(SymbolSegment(d, s).value.value)
  {
    var g := NextGood(d, s);
    NextGoodIsWellFormed(d, s);
    SymbolTokenFits(d, g.value.value);
  }

  /** A well-formed `&` or `*` token is the one character. */
  lemma SymbolTokenFits(d: Dialect, t: Token)
    requires WellFormed(d, t) && (t.kind == Ampersand || t.kind == Star)
    ensures SegmentFits(Segment(t.text, Symbol))
  {
  }

  lemma AttributeLikeSegmentFits(d: Dialect, s: string)
    requires AttributeLikeSegment(d, s).value.Some?
    ensures AttributeLikeSegment(d, s).value.value.kind == AttributeLike
    ensures SegmentFits(AttributeLikeSegment(d, s).value.value)
  {
    var g := NextGood(d, s);
    BracketContentShape(d, PushBack(g.value.value, g.rest), Square);
  }

  lemma NamedSegmentFits(d: Dialect, s: string)
    requires NamedSegment(d, s).value.Some?
    ensures NamedSegment(d, s).value.value.kind !in {Symbol, AttributeLike, OperatorName}
    ensures SegmentFits(NamedSegment(d, s).value.value)
  {
    var q := QualifiedName(d, s);
    QualifiedNameShape(d, s);
    AfterNameFits(d, q.value.value, q.rest);
  }

  lemma AfterNameFits(d: Dialect, name: string, s: string)
    requires IsNameText(name)
    requires AfterName(d, name, s).value.Some?
    ensures AfterName(d, name, s).value.value.kind !in {Symbol, AttributeLike, OperatorName}
    ensures SegmentFits(AfterName(d, name, s).value.value)
  {
    var g := NextGood(d, s);
    if g.value.Some? && BracketAfterName(g.value.value.kind).Some? {
      var b := BracketAfterName(g.value.value.kind).value;
      GroupSegmentFits(d, name, PushBack(g.value.value, g.rest), b);
    }
  }

  lemma GroupSegmentFits(d: Dialect, name: string, s: string, b: Bracket)
    requires IsNameText(name)
    requires BracketContent(d, s, b).value.Some?
    ensures SegmentFits(Segment(name + BracketContent(d, s, b).value.value, FunctionLikeKind(b)))
  {
    BracketContentShape(d, s, b);
    NameThenGroup(name, BracketContent(d, s, b).value.value, b);
  }

  lemma NameThenGroup(name: string, group: string, b: Bracket)
    requires IsNameText(name)
    requires IsGroup(group, b)
    ensures GroupAfterName(name + group, b)
  {
    var text := name + group;
    assert text[..|name|] == name && text[|name|..] == group;
  }

  /**
   * `parseSegment` returns a `&` or `*`, a bracketed attribute, a qualified name, or a
   * qualified name with its bracketed group; nothing produces an operator-name segment.
   */
  lemma SegmentShape(d: Dialect, s: string)
    requires SegmentP(d, s).value.Some?
    ensures SegmentP(d, s).value.value.kind != OperatorName
    ensures SegmentFits(SegmentP(d, s).value.value)
  {
    if NamedSegment(d, s).value.Some? {
      NamedSegmentFits(d, s);
    } else if AttributeLikeSegment(d, s).value.Some? {
      AttributeLikeSegmentFits(d, s);
    } else {
      SymbolSegmentFits(d, s);
    }
  }

  /** A suffix of a suffix. */
  lemma SuffixOfJoin(v: string, r: string, s: string)
    requires IsSuffix(v + r, s)
    ensures IsSuffix(r, s)
  {
    assert (v + r)[|v|..] == r;
    SuffixTransitive(r, v + r, s);
  }

  /** The loop of `parseQualifiedName` leaves a suffix of its input. */
  lemma {:induction false} QualLoopSuffix(d: Dialect, s: string, name: string, last: Option<TokenType>)
    ensures IsSuffix(QualLoop(d, s, name, last).rest, s)
    decreases |s|
  {
    var g := NextGood(d, s);
    NextGoodIsSuffix(d, s);
    if g.value.Some? && IsNameKind(g.value.value.kind) && last != Some(g.value.value.kind) {
      var t := g.value.value;
      QualLoopSuffix(d, g.rest, name + t.text, Some(t.kind));
      assert QualLoop(d, s, name, last) == QualLoop(d, g.rest, name + t.text, Some(t.kind));
      SuffixTransitive(QualLoop(d, g.rest, name + t.text, Some(t.kind)).rest, g.rest, s);
    }
  }

  /** A bracketed group read from the token `t` pushed back leaves a suffix of the text `t` came from. */
  lemma GroupSuffix(d: Dialect, s: string, b: Bracket)
    requires NextGood(d, s).value.Some?
    requires BracketContent(d, PushBack(NextGood(d, s).value.value, NextGood(d, s).rest), b).value.Some?
    ensures IsSuffix(BracketContent(d, PushBack(NextGood(d, s).value.value, NextGood(d, s).rest), b).rest, s)
  {
    var g := NextGood(d, s);
    NextGoodIsSuffix(d, s);
    var u := PushBack(g.value.value, g.rest);
    var c := BracketContent(d, u, b);
    BracketContentShape(d, u, b);
    SuffixOfJoin(c.value.value, c.rest, u);
    SuffixTransitive(c.rest, u, s);
  }

  /** What follows a name leaves a suffix of its input when it parses. */
  lemma AfterNameSuffix(d: Dialect, name: string, s: string)
    requires AfterName(d, name, s).value.Some?
    ensures IsSuffix(AfterName(d, name, s).rest, s)
  {
    var g := NextGood(d, s);
    NextGoodIsSuffix(d, s);
    if g.value.Some? && BracketAfterName(g.value.value.kind).Some? {
      GroupSuffix(d, s, BracketAfterName(g.value.value.kind).value);
    }
  }

  /** `parseSegment` leaves a suffix of its input: it only ever consumes text. */
  lemma SegmentSuffix(d: Dialect, s: string)
    ensures IsSuffix(SegmentP(d, s).rest, s)
  {
    if NamedSegment(d, s).value.Some? {
      var q := QualifiedName(d, s);
      QualLoopSuffix(d, s, "", None);
      AfterNameSuffix(d, q.value.value, q.rest);
      SuffixTransitive(AfterName(d, q.value.value, q.rest).rest, q.rest, s);
    } else if AttributeLikeSegment(d, s).value.Some? {
      GroupSuffix(d, s, Square);
    } else if SymbolSegment(d, s).value.Some? {
      NextGoodIsSuffix(d, s);
    } else {
      assert s[|s| - |s|..] == s;
    }
  }

  // ---------------------------------------------------------------------------
  // Class headers

  predicate AllFit(segs: seq<Segment>)
  {
    forall i :: 0 <= i < |segs| ==> SegmentFits(segs[i])
  }

  lemma AllFitAppend(segs: seq<Segment>, sg: Segment)
    requires AllFit(segs) && SegmentFits(sg)
    ensures AllFit(segs + [sg])
  {
    assert forall i :: 0 <= i < |segs| ==> (segs + [sg])[i] == segs[i];
  }

  /** The token `nextGoodToken` returned, pushed back, is the next one again. */
  lemma NextGoodPushBack(d: Dialect, s: string)
    requires NextGood(d, s).value.Some?
    ensures var g := NextGood(d, s);
      NextGood(d, PushBack(g.value.value, g.rest)) == Step(g.value, g.rest)
  {
    var g := NextGood(d, s);
    NextGoodRelex(d, s);
    var u := PushBack(g.value.value, g.rest);
    assert u[|g.value.value.text|..] == g.rest;
  }

  /**
   * `v` extends `segs` to at most 51 segments of the right shapes, and `rest` starts with a
   * `:` or `{` token.
   */
  predicate HeaderDone(d: Dialect, segs: seq<Segment>, v: seq<Segment>, rest: string)
  {
    && |segs| <= |v| <= 51 && v[..|segs|] == segs && AllFit(v)
    && NextGood(d, rest).value.Some? && NextGood(d, rest).value.value.kind in {Column, LBrace}
  }

  /**
   * The segment loop of the class header takes at most 51 segments, keeps the ones already
   * taken in front, and stops right in front of a `:` or `{` token.
   */
  lemma {:induction false} HeaderLoopShape(d: Dialect, s: string, segs: seq<Segment>, count: nat)
    requires |segs| == count <= 51 && AllFit(segs)
    ensures HeaderLoop(d, s, segs, count).value.Some? ==>
      HeaderDone(d, segs, HeaderLoop(d, s, segs, count).value.value, HeaderLoop(d, s, segs, count).rest)
    decreases |s|
  {
    var g := NextGood(d, s);
    if g.value.Some? {
      var t := g.value.value;
      if t.kind == Column || t.kind == LBrace {
        HeaderStop(d, s, segs);
      } else {
        var sg := SegmentP(d, PushBack(t, g.rest));
        if sg.value.Some? && count <= 50 {
          SegmentShape(d, PushBack(t, g.rest));
          AllFitAppend(segs, sg.value.value);
          var segs' := segs + [sg.value.value];
          HeaderLoopShape(d, sg.rest, segs', count + 1);
          var h := HeaderLoop(d, sg.rest, segs', count + 1);
          assert HeaderLoop(d, s, segs, count) == h;
          if h.value.Some? {
            HeaderMore(d, segs, sg.value.value, h.value.value, h.rest);
          }
        }
      }
    }
  }

  lemma HeaderStop(d: Dialect, s: string, segs: seq<Segment>)
    requires NextGood(d, s).value.Some? && NextGood(d, s).value.value.kind in {Column, LBrace}
    requires |segs| <= 51 && AllFit(segs)
    ensures HeaderDone(d, segs, segs, PushBack(NextGood(d, s).value.value, NextGood(d, s).rest))
  {
    NextGoodPushBack(d, s);
    assert segs[..|segs|] == segs;
  }

  lemma HeaderMore(d: Dialect, segs: seq<Segment>, sg: Segment, v: seq<Segment>, rest: string)
    requires HeaderDone(d, segs + [sg], v, rest)
    ensures HeaderDone(d, segs, v, rest)
  {
    assert v[..|segs|] == (segs + [sg])[..|segs|] == segs;
  }

  /** `i` is the last position of a class-name candidate. */
  predicate IsLastCandidate(segs: seq<Segment>, i: int)
  {
    0 <= i < |segs| && IsClassNameCandidate(segs[i]) &&
    forall j :: i < j < |segs| ==> !IsClassNameCandidate(segs[j])
  }

  /**
   * The class name of the core header is the last MacroLike segment other than `final`
   * among its at most 51 segments (NameChosen).
   */
  lemma NameAndAttrChoice(d: Dialect, s: string)
    requires NameAndAttrP(d, s).value.Some?
    ensures NextGood(d, s).value.Some? && NextGood(d, s).value.value.kind == ClassKeyword
    ensures var h := HeaderLoop(d, NextGood(d, s).rest, [], 0);
      h.value.Some? && |h.value.value| <= 51 && NameChosen(h.value.value, NameAndAttrP(d, s).value.value)
  {
    var k := NextGood(d, s);
    HeaderLoopShape(d, k.rest, [], 0);
    NameAmongChoice(HeaderLoop(d, k.rest, [], 0).value.value);
  }

  /**
   * `n` names the last candidate among `segs`, as NameAt lays it out: a qualified name, with
   * trimmed attributes.
   */
  predicate NameChosen(segs: seq<Segment>, n: NameAndAttr)
  {
    && (exists i: nat :: i < |segs| && IsLastCandidate(segs, i) && n == NameAt(segs, i))
    && IsNameText(n.name) && n.name != "final"
    && (n.attribute.Some? ==> IsTrimmed(n.attribute.value))
    && (n.postAttribute.Some? ==> IsTrimmed(n.postAttribute.value))
  }

  /** A name is found exactly when some segment is a candidate, and it is the last one. */
  lemma NameAmongChoice(segs: seq<Segment>)
    requires AllFit(segs)
    ensures NameAmong(segs).None? <==> forall j :: 0 <= j < |segs| ==> !IsClassNameCandidate(segs[j])
    ensures NameAmong(segs).Some? ==> NameChosen(segs, NameAmong(segs).value)
  {
    if NameAmong(segs).Some? {
      var i := LastIndexWhere(segs, IsClassNameCandidate).value;
      assert IsLastCandidate(segs, i);
      assert SegmentFits(segs[i]);
      TrimIsTrimmed(SpacedTexts(segs[..i]));
      TrimIsTrimmed(SpacedTexts(segs[i + 1..]));
    }
  }

  /**
   * The legacy header is the keyword and one identifier, the name, or two, the attribute
   * and then the name; it has no post-attribute.
   */
  lemma LegacyNameAndAttrShape(d: Dialect, s: string)
    requires LegacyNameAndAttr(d, s).value.Some?
    ensures var n := LegacyNameAndAttr(d, s).value.value;
      && NextGood(d, s).value.Some? && NextGood(d, s).value.value.kind == ClassKeyword
      && (forall i :: 0 <= i < |n.name| ==> IsWordChar(n.name[i])) && n.name != []
      && (n.attribute.Some? ==> forall i :: 0 <= i < |n.attribute.value| ==> IsWordChar(n.attribute.value[i]))
      && n.postAttribute.None?
  {
    var k := NextGood(d, s);
    var t1 := NextGood(d, k.rest);
    NextGoodIsWellFormed(d, k.rest);
    if t1.value.Some? && NextGood(d, t1.rest).value.Some? {
      NextGoodIsWellFormed(d, t1.rest);
    }
  }

  /** All white space (possibly none). */
  predicate AllSpace(w: string)
  {
    forall i :: 0 <= i < |w| ==> IsSpace(w[i])
  }

  /**
   * A word the legacy tokenizer reads as one identifier: a non-empty run of word
   * characters that does not start with `class`, `struct`, `public`, `private` or
   * `protected` (its keyword patterns have no word boundary).
   */
  predicate PlainWord(w: string)
  {
    && w != [] && IsWord(w)
    && KeywordAt(w, LegacyClassKeywords, false).None? && KeywordAt(w, PublicKeywords, false).None?
  }

  /** Made of word characters only. */
  predicate IsWord(w: string)
  {
    forall i :: 0 <= i < |w| ==> IsWordChar(w[i])
  }

  /** A keyword made of word characters starts a word run exactly when it starts the run itself. */
  lemma StartsWithWord(w: string, rest: string, k: string)
    requires IsWord(w) && IsWord(k)
    requires rest == [] || !IsWordChar(rest[0])
    ensures StartsWith(w + rest, k) == StartsWith(w, k)
  {
    if |k| <= |w| {
      assert (w + rest)[..|k|] == w[..|k|];
    } else if |k| <= |w + rest| {
      assert (w + rest)[..|k|][|w|] == rest[0] != k[|w|];
    }
  }

  /** Whether a keyword of a list of words starts a word run depends on the run alone. */
  lemma {:induction false} KeywordOfWord(w: string, rest: string, keywords: seq<string>)
    requires IsWord(w) && (rest == [] || !IsWordChar(rest[0]))
    requires forall k :: k in keywords ==> IsWord(k)
    ensures KeywordAt(w + rest, keywords, false) == KeywordAt(w, keywords, false)
    decreases |keywords|
  {
    if keywords != [] {
      StartsWithWord(w, rest, keywords[0]);
      KeywordOfWord(w, rest, keywords[1..]);
    }
  }

  lemma LegacyKeywordsAreWords()
    ensures forall k :: k in LegacyClassKeywords ==> IsWord(k)
    ensures forall k :: k in PublicKeywords ==> IsWord(k)
  {
    assert IsWord("class") && IsWord("struct");
    assert IsWord("public") && IsWord("private") && IsWord("protected");
  }

  /** Whether a legacy keyword starts a word depends on the word alone. */
  lemma WordKeywords(w: string, rest: string)
    requires IsWord(w) && (rest == [] || !IsWordChar(rest[0]))
    ensures KeywordAt(w + rest, LegacyClassKeywords, false) == KeywordAt(w, LegacyClassKeywords, false)
    ensures KeywordAt(w + rest, PublicKeywords, false) == KeywordAt(w, PublicKeywords, false)
  {
    LegacyKeywordsAreWords();
    KeywordOfWord(w, rest, LegacyClassKeywords);
    KeywordOfWord(w, rest, PublicKeywords);
  }

  /** The legacy `nextGoodToken` skips a run of white space. */
  lemma LegacySpaceSkipped(sp: string, rest: string)
    requires AllSpace(sp) && (rest == [] || !IsSpace(rest[0]))
    ensures NextGood(Legacy, sp + rest) == NextGood(Legacy, rest)
  {
    if sp == [] {
      assert sp + rest == rest;
    } else {
      var s := sp + rest;
      RunStopsAt(sp, rest, IsSpace);
      assert IsSpace(s[0]);
      assert Lex(Legacy, s) == Token(s[..|sp|], Space);
      assert s[|sp|..] == rest;
    }
  }

  /** After white space, a plain word ending at a non-word character is the next legacy token, an identifier. */
  lemma LegacyWordToken(sp: string, w: string, rest: string)
    requires AllSpace(sp) && PlainWord(w) && (rest == [] || !IsWordChar(rest[0]))
    ensures NextGood(Legacy, sp + w + rest) == Step(Some(Token(w, Ident)), rest)
  {
    var s := w + rest;
    assert sp + w + rest == sp + s;
    assert !IsSpace(s[0]) by { assert s[0] == w[0]; }
    LegacySpaceSkipped(sp, s);
    WordKeywords(w, rest);
    WordIsOneIdent(Legacy, s);
    RunStopsAt(w, rest, IsWordChar);
    assert s[..|w|] == w && s[|w|..] == rest;
  }

  /** `class` and `struct` are the next legacy token, whatever follows them. */
  lemma LegacyClassKeywordToken(kw: string, rest: string)
    requires kw in LegacyClassKeywords
    ensures NextGood(Legacy, kw + rest) == Step(Some(Token(kw, ClassKeyword)), rest)
  {
    var s := kw + rest;
    assert s[..|kw|] == kw && s[|kw|..] == rest;
    if kw == "class" {
      LegacyKeywordWithoutBoundary(rest);
    } else {
      assert s[0] == 's' && s[1] == 't';
      assert !StartsWith(s, "class");
      assert KeywordAt(s, LegacyClassKeywords, false) == Some("struct");
    }
  }

  /** On a character that is neither white space nor a word character, only the punctuation rules are left. */
  lemma LegacyPunctuationRule(s: string)
    requires s != [] && !IsSpace(s[0]) && !IsWordChar(s[0])
    ensures LegacyRule(s) == Punctuation(s, false)
  {
    if KeywordAt(s, LegacyClassKeywords, false).Some? { KeywordStartsWithWordChar(s, LegacyClassKeywords, false); }
    if KeywordAt(s, PublicKeywords, false).Some? { KeywordStartsWithWordChar(s, PublicKeywords, false); }
    assert Run(s, IsWordChar) == 0;
  }

  /** A character that is neither white space nor a word character starts a legacy token that is neither. */
  lemma LegacyPunctuationToken(s: string)
    requires s != [] && !IsSpace(s[0]) && !IsWordChar(s[0])
    ensures NextGood(Legacy, s) == Step(Some(Lex(Legacy, s)), s[|Lex(Legacy, s).text|..])
    ensures Lex(Legacy, s).kind != Ident
    ensures Lex(Legacy, s).text + s[|Lex(Legacy, s).text|..] == s
  {
    LegacyPunctuationLex(s);
    SolidToken(Legacy, s);
  }

  /** The legacy token at such a character is the punctuation there. */
  lemma LegacyPunctuationLex(s: string)
    requires s != [] && !IsSpace(s[0]) && !IsWordChar(s[0])
    ensures !IsTrivia(Legacy, Lex(Legacy, s).kind) && Lex(Legacy, s).kind != Ident
  {
    LegacyPunctuationRule(s);
    var r := Punctuation(s, false);
    assert Lex(Legacy, s) == Token(s[..r.len], r.kind);
    assert !IsTrivia(Legacy, r.kind);
  }

  /** A first token that is not trivia is the next good token. */
  lemma SolidToken(d: Dialect, s: string)
    requires s != [] && !IsTrivia(d, Lex(d, s).kind)
    ensures NextGood(d, s) == Step(Some(Lex(d, s)), s[|Lex(d, s).text|..])
  {
  }

  /** The three tokens `parseNameAndAttrInClassDecl` reads, when the second and the third are identifiers. */
  lemma LegacyTwoIdents(d: Dialect, s: string, kw: string, r1: string, a: string, r2: string, b: string, r3: string)
    requires NextGood(d, s) == Step(Some(Token(kw, ClassKeyword)), r1)
    requires NextGood(d, r1) == Step(Some(Token(a, Ident)), r2)
    requires NextGood(d, r2) == Step(Some(Token(b, Ident)), r3)
    ensures LegacyNameAndAttr(d, s) == Step(Some(NameAndAttr(b, Some(a), None)), r3)
  {
  }

  /**
   * The tokens `parseNameAndAttrInClassDecl` reads, when only the second is an identifier:
   * a third token that is not one is pushed back, leaving `r3`.
   */
  lemma LegacyOneIdent(d: Dialect, s: string, kw: string, r1: string, a: string, r2: string, r3: string)
    requires NextGood(d, s) == Step(Some(Token(kw, ClassKeyword)), r1)
    requires NextGood(d, r1) == Step(Some(Token(a, Ident)), r2)
    requires || (NextGood(d, r2).value.None? && r3 == [])
             || (&& NextGood(d, r2).value.Some? && NextGood(d, r2).value.value.kind != Ident
                 && PushBack(NextGood(d, r2).value.value, NextGood(d, r2).rest) == r3)
    ensures LegacyNameAndAttr(d, s) == Step(Some(NameAndAttr(a, None, None)), r3)
  {
  }

  /**
   * `class A B`: with two identifiers after the keyword, the first is the attribute and
   * the second the name, and the parse stops right after the name.
   */
  lemma LegacyTwoWordsName(kw: string, sp1: string, a: string, sp2: string, b: string, rest: string)
    requires kw in LegacyClassKeywords && AllSpace(sp1) && AllSpace(sp2) && sp2 != []
    requires PlainWord(a) && PlainWord(b) && (rest == [] || !IsWordChar(rest[0]))
    ensures LegacyNameAndAttr(Legacy, kw + sp1 + a + sp2 + b + rest) == Step(Some(NameAndAttr(b, Some(a), None)), rest)
  {
    var tail := sp2 + b + rest;
    var s := kw + sp1 + a + sp2 + b + rest;
    assert s == kw + (sp1 + a + tail);
    LegacyClassKeywordToken(kw, sp1 + a + tail);
    assert tail[0] == sp2[0];
    LegacyWordToken(sp1, a, tail);
    LegacyWordToken(sp2, b, rest);
    LegacyTwoIdents(Legacy, s, kw, sp1 + a + tail, a, tail, b, rest);
  }

  /**
   * `class A {`: with one identifier followed by anything else, that identifier is the
   * name, there is no attribute, and the token after it is left in the text.
   */
  lemma LegacyOneWordName(kw: string, sp1: string, a: string, sp2: string, rest: string)
    requires kw in LegacyClassKeywords && AllSpace(sp1) && AllSpace(sp2) && PlainWord(a)
    requires rest == [] || (!IsSpace(rest[0]) && !IsWordChar(rest[0]))
    ensures LegacyNameAndAttr(Legacy, kw + sp1 + a + sp2 + rest) == Step(Some(NameAndAttr(a, None, None)), rest)
  {
    var tail := sp2 + rest;
    var s := kw + sp1 + a + sp2 + rest;
    assert s == kw + (sp1 + a + tail);
    LegacyClassKeywordToken(kw, sp1 + a + tail);
    assert tail == [] || !IsWordChar(tail[0]) by {
      if sp2 != [] { assert tail[0] == sp2[0]; } else { assert tail == rest; }
    }
    LegacyWordToken(sp1, a, tail);
    LegacySpaceSkipped(sp2, rest);
    if rest != [] {
      LegacyPunctuationToken(rest);
    }
    LegacyOneIdent(Legacy, s, kw, sp1 + a + tail, a, tail, rest);
  }

  /** `class {`: a keyword followed by no identifier is not a legacy header. */
  lemma LegacyNoName(kw: string, sp: string, rest: string)
    requires kw in LegacyClassKeywords && AllSpace(sp)
    requires rest == [] || (!IsSpace(rest[0]) && !IsWordChar(rest[0]))
    ensures LegacyNameAndAttr(Legacy, kw + sp + rest).value.None?
  {
    assert kw + sp + rest == kw + (sp + rest);
    LegacyClassKeywordToken(kw, sp + rest);
    LegacySpaceSkipped(sp, rest);
    if rest != [] {
      LegacyPunctuationToken(rest);
    }
  }

  // ---------------------------------------------------------------------------
  // Class declarations

  /** The header production of each parser. */
  function Header(d: Dialect, s: string): Step<NameAndAttr>
  {
    if d == Core then NameAndAttrP(d, s) else LegacyNameAndAttr(d, s)
  }

  /**
   * A class declaration takes its name and attribute from the header, and has no base list
   * exactly when `{` follows the header; otherwise `:` follows and there are 1 to 99 bases.
   */
  lemma ClassDeclShape(d: Dialect, s: string)
    requires ClassDeclP(d, s).value.Some?
    ensures var c := ClassDeclP(d, s).value.value;
      var n := Header(d, s);
      var g := NextGood(d, n.rest);
      && n.value.Some? && c.className == n.value.value.name && c.attribute == n.value.value.attribute
      && g.value.Some? && g.value.value.kind in {Column, LBrace}
      && (c.bases.None? <==> g.value.value.kind == LBrace)
      && (c.bases.Some? ==> 1 <= |c.bases.value| <= 99)
  {
    var n := Header(d, s);
    assert n.value.Some?;
    var h := n.value.value;
    var g := NextGood(d, n.rest);
    assert g.value.Some?;
    if g.value.value.kind == Column {
      var b := BaseList(d, g.rest);
      var brace := NextGood(d, b.rest);
      assert ClassDeclP(d, s) == Step(Some(ClassDecl(h.name, h.attribute, b.value)), brace.rest);
      BaseListSize(d, g.rest);
    } else {
      assert ClassDeclP(d, s) == Step(Some(ClassDecl(h.name, h.attribute, None)), g.rest);
    }
  }

  /**
   * The class name is a qualified name: in the core parser never `final`, in the legacy one
   * a single identifier.
   */
  lemma ClassNameText(d: Dialect, s: string)
    requires ClassDeclP(d, s).value.Some?
    ensures IsNameText(ClassDeclP(d, s).value.value.className)
    ensures d == Core ==> ClassDeclP(d, s).value.value.className != "final"
    ensures d == Legacy ==> forall i :: 0 <= i < |ClassDeclP(d, s).value.value.className| ==>
      IsWordChar(ClassDeclP(d, s).value.value.className[i])
  {
    ClassDeclShape(d, s);
    if d == Core {
      NameAndAttrChoice(d, s);
    } else {
      LegacyNameAndAttrShape(d, s);
    }
  }

  // ---------------------------------------------------------------------------
  // Method declarations

  /**
   * A parsed method declaration: its name segment is a function-like segment with
   * parentheses, the last one; every segment has the shape its type says.
   */
  predicate WellNamed(m: MethodDecl)
  {
    && m.nameSegment < |m.segments| && IsFunctionLike(m.segments[m.nameSegment])
    && (forall j :: m.nameSegment < j < |m.segments| ==> !IsFunctionLike(m.segments[j]))
    && AllFit(m.segments)
  }

  /** A well-named declaration starting with the segments `segs` and at least one more. */
  predicate Extends(segs: seq<Segment>, m: MethodDecl)
  {
    WellNamed(m) && |segs| < |m.segments| && m.segments[..|segs|] == segs
  }

  /** The loop of `parseMethodDecl` returns a well-named declaration extending the segments so far. */
  lemma {:induction false} MethodLoopShape(d: Dialect, s: string, segs: seq<Segment>)
    requires AllFit(segs)
    ensures MethodLoop(d, s, segs).value.Some? ==> Extends(segs, MethodLoop(d, s, segs).value.value)
    decreases |s|
  {
    var sg := SegmentP(d, s);
    if sg.value.Some? {
      SegmentShape(d, s);
      AllFitAppend(segs, sg.value.value);
      var segs' := segs + [sg.value.value];
      var g := NextGood(d, sg.rest);
      if g.value.Some? {
        if g.value.value.kind == SemiColumn {
          MethodEnd(segs, sg.value.value);
        } else {
          MethodLoopShape(d, PushBack(g.value.value, g.rest), segs');
          var r := MethodLoop(d, PushBack(g.value.value, g.rest), segs');
          assert MethodLoop(d, s, segs) == r;
          if r.value.Some? {
            ExtendsMore(segs, sg.value.value, r.value.value);
          }
        }
      }
    }
  }

  lemma MethodEnd(segs: seq<Segment>, sg: Segment)
    requires AllFit(segs + [sg])
    ensures LastIndexWhere(segs + [sg], IsFunctionLike).Some? ==>
      Extends(segs, MethodDecl(LastIndexWhere(segs + [sg], IsFunctionLike).value, segs + [sg]))
  {
    assert (segs + [sg])[..|segs|] == segs;
  }

  lemma ExtendsMore(segs: seq<Segment>, sg: Segment, m: MethodDecl)
    requires Extends(segs + [sg], m)
    ensures Extends(segs, m)
  {
    assert m.segments[..|segs|] == (segs + [sg])[..|segs|] == segs;
  }

  lemma MethodDeclShape(d: Dialect, s: string)
    requires MethodDeclP(d, s).value.Some?
    ensures WellNamed(MethodDeclP(d, s).value.value)
  {
    MethodLoopShape(d, s, []);
  }

  /**
   * The segments `parseMethodDecl` reads up to the `;` that follows one of them, before it
   * looks for the name; None when a segment does not parse or the text ends first.
   */
  function SegmentsToSemi(d: Dialect, s: string, segs: seq<Segment>): Step<seq<Segment>>
    decreases |s|
  {
    var sg := SegmentP(d, s);
    if sg.value.None? then Step(None, sg.rest)
    else
      var segs' := segs + [sg.value.value];
      var g := NextGood(d, sg.rest);
      match g.value
      case None => Step(None, g.rest)
      case Some(t) =>
        if t.kind == SemiColumn then Step(Some(segs'), g.rest) else SegmentsToSemi(d, PushBack(t, g.rest), segs')
  }

  /** The declaration named by the last function-like segment with parentheses, if there is one. */
  function NamedBy(segs: seq<Segment>): Option<MethodDecl>
  {
    match LastIndexWhere(segs, IsFunctionLike)
    case None => None
    case Some(i) => Some(MethodDecl(i, segs))
  }

  /**
   * `parseMethodDecl` in two phases: it reads the segments up to a `;`, and then names the
   * declaration after the last function-like one; with no `;`, or no such segment, it fails.
   */
  lemma {:induction false} MethodLoopBySegments(d: Dialect, s: string, segs: seq<Segment>)
    ensures MethodLoop(d, s, segs).rest == SegmentsToSemi(d, s, segs).rest
    ensures SegmentsToSemi(d, s, segs).value.None? ==> MethodLoop(d, s, segs).value.None?
    ensures SegmentsToSemi(d, s, segs).value.Some? ==> MethodLoop(d, s, segs).value == NamedBy(SegmentsToSemi(d, s, segs).value.value)
    decreases |s|
  {
    var sg := SegmentP(d, s);
    if sg.value.Some? {
      var segs' := segs + [sg.value.value];
      var g := NextGood(d, sg.rest);
      if g.value.Some? && g.value.value.kind != SemiColumn {
        var u := PushBack(g.value.value, g.rest);
        MethodLoopBySegments(d, u, segs');
        assert MethodLoop(d, s, segs) == MethodLoop(d, u, segs');
        assert SegmentsToSemi(d, s, segs) == SegmentsToSemi(d, u, segs');
      }
    }
  }

  /** `parseMethodDecl` fails when it reaches its `;` with no function-like segment with parentheses. */
  lemma MethodDeclWithoutName(d: Dialect, s: string)
    requires SegmentsToSemi(d, s, []).value.Some?
    requires forall j :: 0 <= j < |SegmentsToSemi(d, s, []).value.value| ==> !IsFunctionLike(SegmentsToSemi(d, s, []).value.value[j])
    ensures MethodDeclP(d, s).value.None?
  {
    MethodLoopBySegments(d, s, []);
  }

  /** `parseMethodDecl` fails when a segment does not parse or the text ends after one, before any `;`. */
  lemma MethodDeclWithoutSemi(d: Dialect, s: string)
    requires SegmentsToSemi(d, s, []).value.None?
    ensures MethodDeclP(d, s).value.None?
  {
    MethodLoopBySegments(d, s, []);
  }

  /** `parseMethodDecl` fails, consuming nothing, when no segment parses at the start. */
  lemma MethodDeclWithoutSegment(d: Dialect, s: string)
    requires SegmentP(d, s).value.None?
    ensures MethodDeclP(d, s) == Step(None, s)
  {
  }

  /** `parseMethodDecl` fails when the text ends right after a segment, leaving nothing. */
  lemma MethodDeclEndsAfterSegment(d: Dialect, s: string, segs: seq<Segment>)
    requires SegmentP(d, s).value.Some? && NextGood(d, SegmentP(d, s).rest).value.None?
    ensures MethodLoop(d, s, segs) == Step(None, [])
  {
  }

  /** A parsed method declaration leaves the text right after a `;` of its input. */
  lemma {:induction false} MethodLoopEndsAtSemi(d: Dialect, s: string, segs: seq<Segment>)
    ensures MethodLoop(d, s, segs).value.Some? ==> IsSuffix(";" + MethodLoop(d, s, segs).rest, s)
    decreases |s|
  {
    var sg := SegmentP(d, s);
    if sg.value.Some? {
      SegmentSuffix(d, s);
      var segs' := segs + [sg.value.value];
      var g := NextGood(d, sg.rest);
      if g.value.Some? {
        var t := g.value.value;
        var u := PushBack(t, g.rest);
        NextGoodIsSuffix(d, sg.rest);
        SuffixTransitive(u, sg.rest, s);
        if t.kind == SemiColumn {
          NextGoodIsWellFormed(d, sg.rest);
          SemiColumnText(d, t);
          assert u == ";" + g.rest;
        } else {
          MethodLoopEndsAtSemi(d, u, segs');
          var r := MethodLoop(d, u, segs');
          assert MethodLoop(d, s, segs) == r;
          if r.value.Some? {
            SuffixTransitive(";" + r.rest, u, s);
          }
        }
      }
    }
  }

  /** The text of a well-formed `;` token. */
  lemma SemiColumnText(d: Dialect, t: Token)
    requires WellFormed(d, t) && t.kind == SemiColumn
    ensures t.text == ";"
  {
    assert SymbolText(t.kind) == Some(";");
  }

  /** A method declaration is only found in a text that has a `;`. */
  lemma MethodDeclNeedsSemi(d: Dialect, s: string)
    ensures MethodDeclP(d, s).value.Some? ==> ';' in s
  {
    MethodLoopEndsAtSemi(d, s, []);
    var r := MethodDeclP(d, s);
    if r.value.Some? {
      assert s[|s| - |r.rest| - 1] == (";" + r.rest)[0];
    }
  }

  /** `parseMethodDecls` returns a non-empty list of well-named declarations, or nothing. */
  lemma {:induction false} MethodsLoopShape(d: Dialect, s: string, methods: seq<MethodDecl>)
    requires forall i :: 0 <= i < |methods| ==> WellNamed(methods[i])
    ensures var r := MethodsLoop(d, s, methods);
      r.value.Some? ==> r.value.value != [] && forall i :: 0 <= i < |r.value.value| ==> WellNamed(r.value.value[i])
    decreases |s|
  {
    var m := MethodDeclP(d, s);
    if m.value.Some? {
      MethodDeclShape(d, s);
      var methods' := methods + [m.value.value];
      assert forall i :: 0 <= i < |methods'| ==> WellNamed(methods'[i]) by {
        forall i | 0 <= i < |methods'| ensures WellNamed(methods'[i]) {
          if i < |methods| { assert methods'[i] == methods[i]; }
        }
      }
      MethodsLoopShape(d, m.rest, methods');
    }
  }

  lemma MethodDeclsShape(d: Dialect, s: string)
    requires MethodDecls(d, s).value.Some?
    ensures MethodDecls(d, s).value.value != []
    ensures forall i :: 0 <= i < |MethodDecls(d, s).value.value| ==> WellNamed(MethodDecls(d, s).value.value[i])
  {
    MethodsLoopShape(d, s, []);
  }

  // ---------------------------------------------------------------------------
  // The enclosing class

  /** A class frame on top is the innermost class. */
  lemma InnermostOfClass(stack: seq<Option<ClassDecl>>, c: ClassDecl)
    ensures Innermost(stack + [Some(c)]) == Some(c)
  {
    assert (stack + [Some(c)])[|stack|] == Some(c);
  }

  /** A plain block on top leaves the innermost class as it was. */
  lemma InnermostOfBlock(stack: seq<Option<ClassDecl>>)
    ensures Innermost(stack + [None]) == Innermost(stack)
  {
    LastIndexOfAppend(stack, [None], IsClassFrame);
    assert forall j :: 0 <= j < |stack| ==> (stack + [None])[j] == stack[j];
  }

  /** A `}` closes what the matching `{` or class declaration opened. */
  lemma FramesCloseWhatOpens(stack: seq<Option<ClassDecl>>, c: Option<ClassDecl>)
    ensures Frames(Frames(stack, LBrace, None), RBrace, None) == stack
    ensures c.Some? ==> Frames(Frames(stack, ClassKeyword, c), RBrace, None) == stack
  {
    assert (stack + [None])[..|stack|] == stack;
    assert (stack + [c])[..|stack|] == stack;
  }

  /** Tokens other than class keywords and braces leave the scope stack alone. */
  lemma FramesOtherTokens(stack: seq<Option<ClassDecl>>, k: TokenType, c: Option<ClassDecl>)
    requires k !in {ClassKeyword, LBrace, RBrace}
    ensures Frames(stack, k, c) == stack
  {
  }

  /**
   * Every turn of the loop of `parseTextUpToCursor` consumes at least one character, so the
   * token limit only cuts off texts longer than it: a text of at most `limit` characters
   * always ends with a scope stack.
   */
  lemma {:induction false} ScopeLoopWithinLimit(s: string, stack: seq<Option<ClassDecl>>, limit: int)
    requires |s| <= limit
    ensures ScopeLoop(s, stack, limit).Some?
    decreases |s|
  {
    if s != [] {
      var next, frames := ScopeLoopTurn(s, stack, limit);
      ScopeLoopWithinLimit(next, frames, limit - 1);
    }
  }

  /** The text the loop of `parseTextUpToCursor` goes on from after one turn on `s`. */
  function TurnRest(s: string): (r: string)
    requires s != []
    ensures |r| < |s|
  {
    var t := Lex(Core, s);
    TurnShrinks(t, s[|t.text|..]);
    ClassAtKeyword(t, s[|t.text|..]).rest
  }

  /**
   * The number of tokens the loop of `parseTextUpToCursor` takes from the tokenizer: one per
   * turn, a whole class declaration counting as its keyword only.
   */
  function ScopeTurns(s: string): (n: nat)
    ensures n <= |s| && (s != [] ==> n >= 1)
    decreases |s|
  {
    if s == [] then 0 else 1 + ScopeTurns(TurnRest(s))
  }

  /** The loop gives up exactly when it would take more tokens than the limit allows. */
  lemma ScopeLoopLimit(s: string, stack: seq<Option<ClassDecl>>, limit: int)
    requires limit >= 0
    ensures ScopeLoop(s, stack, limit).None? <==> ScopeTurns(s) > limit
  {
    if ScopeTurns(s) > limit {
      ScopeLoopBeyondTurns(s, stack, limit);
    } else {
      ScopeLoopWithinTurns(s, stack, limit);
    }
  }

  /** A text that needs more turns than the limit allows makes the loop give up. */
  lemma {:induction false} ScopeLoopBeyondTurns(s: string, stack: seq<Option<ClassDecl>>, limit: int)
    requires limit >= 0 && ScopeTurns(s) > limit
    ensures ScopeLoop(s, stack, limit).None?
    decreases |s|
  {
    if limit == 0 {
      ScopeLoopExhausted(s, stack);
    } else {
      var l := limit - 1;
      var next, frames := ScopeLoopTurnTo(s, stack, limit, l);
      ScopeLoopBeyondTurns(next, frames, l);
    }
  }

  /** A text that needs no more turns than the limit allows ends with a scope stack. */
  lemma {:induction false} ScopeLoopWithinTurns(s: string, stack: seq<Option<ClassDecl>>, limit: int)
    requires ScopeTurns(s) <= limit
    ensures ScopeLoop(s, stack, limit).Some?
    decreases |s|
  {
    if s != [] {
      var l := limit - 1;
      var next, frames := ScopeLoopTurnTo(s, stack, limit, l);
      ScopeLoopWithinTurns(next, frames, l);
    }
  }

  /** One turn of the loop, with the limit left for the next turn named `l`. */
  lemma ScopeLoopTurnTo(s: string, stack: seq<Option<ClassDecl>>, limit: int, l: int) returns (next: string, frames: seq<Option<ClassDecl>>)
    requires s != [] && limit > 0 && l == limit - 1
    ensures |next| < |s| && ScopeLoop(s, stack, limit) == ScopeLoop(next, frames, l)
    ensures ScopeTurns(s) == 1 + ScopeTurns(next)
  {
    var t := Lex(Core, s);
    var mid := s[|t.text|..];
    next, frames := ClassAtKeyword(t, mid).rest, Frames(stack, t.kind, ClassAtKeyword(t, mid).value);
    ScopeLoopAfter(s, stack, limit, t, mid, next, frames, l);
    assert next == TurnRest(s);
  }

  /** With no limit left, the loop gives up on any text that is not empty. */
  lemma ScopeLoopExhausted(s: string, stack: seq<Option<ClassDecl>>)
    requires s != []
    ensures ScopeLoop(s, stack, 0).None?
  {
  }

  /** `parseTextUpToCursor` finds no class in a text of more than 200000 loop tokens. */
  lemma TextUpToCursorLimit(s: string)
    requires ScopeTurns(s) > TokenLimit
    ensures TextUpToCursor(s).None?
  {
    ScopeLoopLimit(s, [], TokenLimit);
  }

  /** One turn of the loop: what is left of the text is shorter and the loop goes on from it. */
  lemma ScopeLoopTurn(s: string, stack: seq<Option<ClassDecl>>, limit: int) returns (next: string, frames: seq<Option<ClassDecl>>)
    requires s != [] && limit > 0
    ensures |next| < |s| && ScopeLoop(s, stack, limit) == ScopeLoop(next, frames, limit - 1)
    ensures ScopeTurns(s) == 1 + ScopeTurns(next)
  {
    var t := Lex(Core, s);
    var rest := s[|t.text|..];
    var c := ClassAtKeyword(t, rest);
    TurnShrinks(t, rest);
    ScopeLoopStep(s, stack, limit, t, rest, c);
    next, frames := c.rest, Frames(stack, t.kind, c.value);
  }

  /** A block comment is one token: a class keyword or brace inside it changes no frame. */
  lemma BlockCommentIsSkipped(s: string, stack: seq<Option<ClassDecl>>, limit: int)
    requires StartsWith(s, "/*") && limit > 0
    ensures ScopeLoop(s, stack, limit) == ScopeLoop(s[BlockScan(s, 0)..], stack, limit - 1)
  {
    BlockCommentToken(s);
    var t := Lex(Core, s);
    var rest := s[|t.text|..];
    assert ClassAtKeyword(t, rest) == Step(None, rest);
    ScopeLoopStep(s, stack, limit, t, rest, Step(None, rest));
  }

  /** A `#` or `//` line ending in a newline is one token, which changes no frame. */
  lemma LineCommentIsSkipped(prefix: string, body: string, rest: string, stack: seq<Option<ClassDecl>>, limit: int)
    requires prefix == "#" || prefix == "//"
    requires forall i :: 0 <= i < |body| ==> !IsLineTerminator(body[i])
    requires limit > 0
    ensures ScopeLoop(prefix + body + "\n" + rest, stack, limit) == ScopeLoop(rest, stack, limit - 1)
  {
    var s := prefix + body + "\n" + rest;
    LineComment(prefix, body, rest);
    var t := Lex(Core, s);
    assert s[|t.text|..] == rest;
    assert ClassAtKeyword(t, rest) == Step(None, rest);
    ScopeLoopStep(s, stack, limit, t, rest, Step(None, rest));
  }
}
