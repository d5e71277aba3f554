/**
 * The older single-file implementation in src/extension.ts: a tokenizer with a stack of
 * saved texts, a parser whose productions match the core parser's except for the lexer,
 * the trivia it skips and a one-or-two-identifier class header, and `defineMethod`.
 */
module LegacyParsers {
  import opened Options
  import opened Text
  import opened Lexicon
  import opened Algorithm
  import opened Grammar
  import opened Declarations
  import opened GrammarProperties

  /** The legacy `Tokenizer`: the text still to read and the texts saved by `save`. */
  class LegacyTokenizer {
    var stack: seq<string>
    var text: string

    constructor(text: string)
      ensures this.text == text && stack == []
    {
      this.stack := [];
      this.text := text;
    }

    /** `save`: pushes the current text. */
    method Save()
      modifies this
      ensures stack == old(stack) + [old(text)] && text == old(text)
    {
      stack := stack + [text];
    }

    /**
     * `restore(drop)`: pops the last saved text and reinstates it, or only pops it when
     * `drop` holds. On an empty stack the source throws; `thrown` reports that case, in
     * which nothing changes.
     */
    method Restore(drop: bool) returns (thrown: bool)
      modifies this
      ensures thrown <==> old(stack) == []
      ensures thrown ==> stack == old(stack) && text == old(text)
      ensures !thrown ==> stack == old(stack)[..|old(stack)| - 1]
      ensures !thrown ==> text == if drop then old(text) else old(stack)[|old(stack)| - 1]
    {
      if |stack| == 0 {
        return true;
      }
      var stackText := stack[|stack| - 1];
      stack := stack[..|stack| - 1];
      if !drop {
        text := stackText;
      }
      return false;
    }

    /** `prepend`: puts `value` in front of the remaining text. */
    method Prepend(value: string)
      modifies this
      ensures text == value + old(text) && stack == old(stack)
    {
      text := value + text;
    }

    /**
     * `next`: None on an empty text; otherwise the token `Lex(Legacy, text)`, whose text
     * is removed from the front.
     */
    method Next() returns (r: Option<Token>)
      modifies this
      ensures stack == old(stack)
      ensures old(text) == [] <==> r.None?
      ensures r.None? ==> text == old(text)
      ensures r.Some? ==> r.value == Lex(Legacy, old(text)) && old(text) == r.value.text + text
      ensures r.Some? ==> text == old(text)[|r.value.text|..]
    {
      if |text| == 0 {
        return None;
      }
      var rule := LegacyRule(text);
      LexOfRule(Legacy, text);
      var t := SliceToken(rule.len, rule.kind);
      r := Some(t);
    }

    /** `sliceToken`: the first `len` characters (all of them if there are fewer) as a token, removed from the text. */
    method SliceToken(len: nat, kind: TokenType) returns (t: Token)
      modifies this
      ensures stack == old(stack)
      ensures len <= |old(text)| ==> t == Token(old(text)[..len], kind)
      ensures len > |old(text)| ==> t == Token(old(text), kind)
      ensures old(text) == t.text + text
    {
      var n := if len <= |text| then len else |text|;
      t := Token(text[..n], kind);
      text := text[n..];
    }
  }

  /** The three alternatives `parseSegment` tries, in its order. */
  datatype Alternative = NamedAlternative | AttributeLikeAlternative | SymbolAlternative

  /** The production an alternative runs. */
  function AlternativeP(a: Alternative, s: string): Step<Segment>
  {
    match a
    case NamedAlternative => NamedSegment(Legacy, s)
    case AttributeLikeAlternative => AttributeLikeSegment(Legacy, s)
    case SymbolAlternative => SymbolSegment(Legacy, s)
  }

  /** The legacy `Parser`. Every production leaves the tokenizer's stack as it found it. */
  class LegacyParser {
    const tokenizer: LegacyTokenizer

    constructor(tokenizer: LegacyTokenizer)
      ensures this.tokenizer == tokenizer
    {
      this.tokenizer := tokenizer;
    }

    /** `nextGoodToken`: skips spaces only. */
    method NextGoodToken() returns (r: Option<Token>)
      modifies tokenizer
      ensures tokenizer.stack == old(tokenizer.stack)
      ensures Step(r, tokenizer.text) == NextGood(Legacy, old(tokenizer.text))
    {
      ghost var entry := tokenizer.text;
      while true
        invariant tokenizer.stack == old(tokenizer.stack)
        invariant NextGood(Legacy, tokenizer.text) == NextGood(Legacy, entry)
        decreases |tokenizer.text|
      {
        var t := tokenizer.Next();
        if t.None? {
          return None;
        }
        if !IsTrivia(Legacy, t.value.kind) {
          return t;
        }
      }
    }

    /** `parseQualifiedName`. */
    method ParseQualifiedName() returns (r: Option<string>)
      modifies tokenizer
      ensures tokenizer.stack == old(tokenizer.stack)
      ensures Step(r, tokenizer.text) == QualifiedName(Legacy, old(tokenizer.text))
    {
      var name := "";
      var last: Option<TokenType> := None;
      ghost var goal := QualLoop(Legacy, tokenizer.text, name, last);
      while true
        invariant tokenizer.stack == old(tokenizer.stack)
        invariant QualLoop(Legacy, tokenizer.text, name, last) == goal
        decreases |tokenizer.text|
      {
        ghost var before := tokenizer.text;
        var t := NextGoodToken();
        if t.None? {
          assert QualLoop(Legacy, before, name, last) == Step(Some(name), tokenizer.text);
          break;
        }
        var token := t.value;
        if !IsNameKind(token.kind) || last == Some(token.kind) {
          tokenizer.Prepend(token.text);
          assert QualLoop(Legacy, before, name, last) == Step(Some(name), tokenizer.text);
          break;
        }
        name := name + token.text;
        last := Some(token.kind);
      }
      r := if name == "" then None else Some(name);
    }

    /** `parseClassName`. */
    method ParseClassName() returns (r: Option<ClassName>)
      modifies tokenizer
      ensures tokenizer.stack == old(tokenizer.stack)
      ensures Step(r, tokenizer.text) == ClassNameP(Legacy, old(tokenizer.text))
      decreases |tokenizer.text|, 0
    {
      var ident := ParseQualifiedName();
      if ident.None? {
        return None;
      }
      var open := NextGoodToken();
      if open.None? {
        return Some(ClassName(ident.value, Some([])));
      }
      if open.value.kind != LAngleBracket {
        tokenizer.Prepend(open.value.text);
        return Some(ClassName(ident.value, None));
      }
      var args := ParseTemplateArgList();
      if args.None? {
        return None;
      }
      var close := NextGoodToken();
      if close.None? || close.value.kind != RAngleBracket {
        return None;
      }
      return Some(ClassName(ident.value, args));
    }

    /** `parseTemplateArgList`: `parseCommaSeparatedList` with `parseClassName` as the item parser. */
    method ParseTemplateArgList() returns (r: Option<seq<ClassName>>)
      modifies tokenizer
      ensures tokenizer.stack == old(tokenizer.stack)
      ensures Step(r, tokenizer.text) == ArgListLoop(Legacy, old(tokenizer.text), [], 0)
      decreases |tokenizer.text|, 1
    {
      ghost var entry := tokenizer.text;
      var items: seq<ClassName> := [];
      var count := 0;
      ghost var goal := ArgListLoop(Legacy, tokenizer.text, items, count);
      while count < 99
        invariant tokenizer.stack == old(tokenizer.stack)
        invariant count <= 99
        invariant |tokenizer.text| <= |entry|
        invariant ArgListLoop(Legacy, tokenizer.text, items, count) == goal
        decreases 99 - count
      {
        var item := ParseClassName();
        if item.None? {
          return None;
        }
        items := items + [item.value];
        var comma := NextGoodToken();
        if comma.None? {
          return Some(items);
        }
        if comma.value.kind != Comma {
          tokenizer.Prepend(comma.value.text);
          return Some(items);
        }
        count := count + 1;
      }
      return None;
    }

    /** `parseBase`. */
    method ParseBase() returns (r: Option<BaseDecl>)
      modifies tokenizer
      ensures tokenizer.stack == old(tokenizer.stack)
      ensures Step(r, tokenizer.text) == Base(Legacy, old(tokenizer.text))
    {
      var t := NextGoodToken();
      if t.None? {
        return None;
      }
      var token := t.value;
      if token.kind == PublicKeyword {
        var c := ParseClassName();
        if c.Some? {
          return Some(BaseDecl(Some(token.text), c.value));
        }
      } else if token.kind == Ident {
        tokenizer.Prepend(token.text);
        var c := ParseClassName();
        if c.Some? {
          return Some(BaseDecl(None, c.value));
        }
      } else {
        return None;
      }
      return None;
    }

    /** `parseBaseList`: `parseCommaSeparatedList` with `parseBase` as the item parser. */
    method ParseBaseList() returns (r: Option<seq<BaseDecl>>)
      modifies tokenizer
      ensures tokenizer.stack == old(tokenizer.stack)
      ensures Step(r, tokenizer.text) == BaseList(Legacy, old(tokenizer.text))
    {
      var items: seq<BaseDecl> := [];
      var count := 0;
      ghost var goal := BaseListLoop(Legacy, tokenizer.text, items, count);
      while count < 99
        invariant tokenizer.stack == old(tokenizer.stack)
        invariant count <= 99
        invariant BaseListLoop(Legacy, tokenizer.text, items, count) == goal
        decreases 99 - count
      {
        var item := ParseBase();
        if item.None? {
          return None;
        }
        items := items + [item.value];
        var comma := NextGoodToken();
        if comma.None? {
          return Some(items);
        }
        if comma.value.kind != Comma {
          tokenizer.Prepend(comma.value.text);
          return Some(items);
        }
        count := count + 1;
      }
      return None;
    }

    /** `parseBracketContent`: the opening token, then the scan for its matching close. */
    method ParseBracketContent(b: Bracket) returns (r: Option<string>)
      modifies tokenizer
      ensures tokenizer.stack == old(tokenizer.stack)
      ensures Step(r, tokenizer.text) == BracketContent(Legacy, old(tokenizer.text), b)
    {
      var begin := NextGoodToken();
      if begin.None? || begin.value.kind != Opening(b) {
        return None;
      }
      r := ScanBracketContent(b, begin.value.text);
    }

    /**
     * The loop of `parseBracketContent` over raw tokens: `owed` counts the opening tokens
     * still waiting for a closing one, and every token's text is kept.
     */
    method ScanBracketContent(b: Bracket, begin: string) returns (r: Option<string>)
      modifies tokenizer
      ensures tokenizer.stack == old(tokenizer.stack)
      ensures Step(r, tokenizer.text) == BracketLoop(Legacy, old(tokenizer.text), b, 1, begin)
    {
      var owed := 1;
      var content := begin;
      ghost var goal := BracketLoop(Legacy, tokenizer.text, b, owed, content);
      while true
        invariant tokenizer.stack == old(tokenizer.stack)
        invariant BracketLoop(Legacy, tokenizer.text, b, owed, content) == goal
        decreases |tokenizer.text|
      {
        var t := tokenizer.Next();
        if t.None? {
          return None;
        }
        var token := t.value;
        owed := OwedAfter(token.kind, b, owed);
        content := content + token.text;
        if token.kind == Closing(b) && owed == 0 {
          return Some(content);
        }
      }
    }

    /** `parseSymbolSegment`. */
    method ParseSymbolSegment() returns (r: Option<Segment>)
      modifies tokenizer
      ensures tokenizer.stack == old(tokenizer.stack)
      ensures Step(r, tokenizer.text) == SymbolSegment(Legacy, old(tokenizer.text))
    {
      var t := NextGoodToken();
      if t.None? {
        return None;
      }
      if t.value.kind == Ampersand || t.value.kind == Star {
        return Some(Segment(t.value.text, Symbol));
      }
      return None;
    }

    /** `parseAttributeLikeSegment`. */
    method ParseAttributeLikeSegment() returns (r: Option<Segment>)
      modifies tokenizer
      ensures tokenizer.stack == old(tokenizer.stack)
      ensures Step(r, tokenizer.text) == AttributeLikeSegment(Legacy, old(tokenizer.text))
    {
      var t := NextGoodToken();
      if t.None? {
        return None;
      }
      if t.value.kind == LBracket {
        tokenizer.Prepend(t.value.text);
        var content := ParseBracketContent(Square);
        if content.None? {
          return None;
        }
        return Some(Segment(content.value, AttributeLike));
      }
      return None;
    }

    /** `parseNamedSegment`. */
    method ParseNamedSegment() returns (r: Option<Segment>)
      modifies tokenizer
      ensures tokenizer.stack == old(tokenizer.stack)
      ensures Step(r, tokenizer.text) == NamedSegment(Legacy, old(tokenizer.text))
    {
      var name := ParseQualifiedName();
      if name.None? {
        return None;
      }
      var t := NextGoodToken();
      if t.None? {
        return Some(Segment(name.value, MacroLike));
      }
      var bracket := BracketAfterName(t.value.kind);
      if bracket.Some? {
        tokenizer.Prepend(t.value.text);
        var content := ParseBracketContent(bracket.value);
        if content.None? {
          return None;
        }
        return Some(Segment(name.value + content.value, FunctionLikeKind(bracket.value)));
      }
      tokenizer.Prepend(t.value.text);
      return Some(Segment(name.value, MacroLike));
    }

    /** `parseNameAndAttrInClassDecl`: the keyword, then one identifier, or an attribute identifier and the name. */
    method ParseNameAndAttrInClassDecl() returns (r: Option<NameAndAttr>)
      modifies tokenizer
      ensures tokenizer.stack == old(tokenizer.stack)
      ensures Step(r, tokenizer.text) == LegacyNameAndAttr(Legacy, old(tokenizer.text))
    {
      var classKw := NextGoodToken();
      if classKw.None? || classKw.value.kind != ClassKeyword {
        return None;
      }
      var token1 := NextGoodToken();
      if token1.None? || token1.value.kind != Ident {
        return None;
      }
      var token2 := NextGoodToken();
      if token2.None? {
        return Some(NameAndAttr(token1.value.text, None, None));
      }
      if token2.value.kind != Ident {
        tokenizer.Prepend(token2.value.text);
        return Some(NameAndAttr(token1.value.text, None, None));
      }
      return Some(NameAndAttr(token2.value.text, Some(token1.value.text), None));
    }

    /**
     * `tryParseSegment`: saves the text, runs one alternative, then restores the saved text
     * if it failed and drops it if it succeeded. The stack is as deep as before.
     */
    method TryParseSegment(a: Alternative) returns (seg: Option<Segment>)
      modifies tokenizer
      ensures tokenizer.stack == old(tokenizer.stack)
      ensures Step(seg, tokenizer.text) == TryParse(old(tokenizer.text), AlternativeP(a, old(tokenizer.text)))
    {
      tokenizer.Save();
      seg := ParseAlternative(a);
      var dontDrop := seg.None?;
      var _ := tokenizer.Restore(!dontDrop);
    }

    /** The `subParse` argument of `tryParseSegment`. */
    method ParseAlternative(a: Alternative) returns (seg: Option<Segment>)
      modifies tokenizer
      ensures tokenizer.stack == old(tokenizer.stack)
      ensures Step(seg, tokenizer.text) == AlternativeP(a, old(tokenizer.text))
    {
      match a
      case NamedAlternative => seg := ParseNamedSegment();
      case AttributeLikeAlternative => seg := ParseAttributeLikeSegment();
      case SymbolAlternative => seg := ParseSymbolSegment();
    }

    /** `parseSegment`: named, then attribute-like, then symbol. */
    method ParseSegment() returns (r: Option<Segment>)
      modifies tokenizer
      ensures tokenizer.stack == old(tokenizer.stack)
      ensures Step(r, tokenizer.text) == SegmentP(Legacy, old(tokenizer.text))
    {
      r := TryParseSegment(NamedAlternative);
      if r.Some? {
        return;
      }
      r := TryParseSegment(AttributeLikeAlternative);
      if r.Some? {
        return;
      }
      r := TryParseSegment(SymbolAlternative);
    }

    /** `parseClassDecl`. */
    method ParseClassDecl() returns (r: Option<ClassDecl>)
      modifies tokenizer
      ensures tokenizer.stack == old(tokenizer.stack)
      ensures Step(r, tokenizer.text) == ClassDeclP(Legacy, old(tokenizer.text))
    {
      var nameAndAttr := ParseNameAndAttrInClassDecl();
      if nameAndAttr.None? {
        return None;
      }
      var token := NextGoodToken();
      if token.None? {
        return None;
      }
      if token.value.kind == Column {
        var bases := ParseBaseList();
        if bases.Some? {
          var brace := NextGoodToken();
          if brace.None? || brace.value.kind != LBrace {
            return None;
          }
          return Some(ClassDecl(nameAndAttr.value.name, nameAndAttr.value.attribute, bases));
        }
        return None;
      } else if token.value.kind == LBrace {
        return Some(ClassDecl(nameAndAttr.value.name, nameAndAttr.value.attribute, None));
      } else {
        return None;
      }
    }

    /** `parseMethodDecl`: segments until a `;`, then the last function-like segment is the name. */
    method ParseMethodDecl() returns (r: Option<MethodDecl>)
      modifies tokenizer
      ensures tokenizer.stack == old(tokenizer.stack)
      ensures Step(r, tokenizer.text) == MethodDeclP(Legacy, old(tokenizer.text))
    {
      var segments: seq<Segment> := [];
      ghost var goal := MethodLoop(Legacy, tokenizer.text, segments);
      while true
        invariant tokenizer.stack == old(tokenizer.stack)
        invariant MethodLoop(Legacy, tokenizer.text, segments) == goal
        decreases |tokenizer.text|
      {
        ghost var before := tokenizer.text;
        var seg := ParseSegment();
        if seg.None? {
          return None;
        }
        segments := segments + [seg.value];
        var semi := NextGoodToken();
        if semi.None? {
          return None;
        }
        if semi.value.kind == SemiColumn {
          var i := FindLastIndex(segments, IsFunctionLike);
          if i.None? {
            return None;
          }
          return Some(MethodDecl(i.value, segments));
        }
        tokenizer.Prepend(semi.value.text);
      }
    }

  }

  /** The segments the legacy definition leaves out; `final` is not one of them. */
  const RemovedSegments: seq<string> := ["override", "virtual", "explicit", "static"]

  /**
   * What `defineMethod` returns: None unless the class context parses as a class
   * declaration and the method context as a method declaration; otherwise the untrimmed
   * declaration with the class name before the name segment.
   */
  function LegacyDefinition(classDeclContext: string, methodDeclContext: string): (r: Option<string>)
    ensures r.Some? <==> ClassDeclP(Legacy, classDeclContext).value.Some? && MethodDeclP(Legacy, methodDeclContext).value.Some?
  {
    match ClassDeclP(Legacy, classDeclContext).value
    case None => None
    case Some(c) =>
      match MethodDeclP(Legacy, methodDeclContext).value
      case None => None
      case Some(m) => Some(Decl(c.className, m, RemovedSegments))
  }

  /** `defineMethod`: a fresh tokenizer and parser for each context. */
  method DefineMethod(classDeclContext: string, methodDeclContext: string) returns (r: Option<string>)
    ensures r == LegacyDefinition(classDeclContext, methodDeclContext)
  {
    var tokenizer := new LegacyTokenizer(classDeclContext);
    var parser := new LegacyParser(tokenizer);
    var classDecl := parser.ParseClassDecl();
    if classDecl.None? {
      return None;
    }
    tokenizer := new LegacyTokenizer(methodDeclContext);
    parser := new LegacyParser(tokenizer);
    var methodDecl := parser.ParseMethodDecl();
    if methodDecl.None? {
      return None;
    }
    var decl := BuildDecl(classDecl.value.className, methodDecl.value, RemovedSegments);
    return Some(decl);
  }

  /**
   * A legacy definition: the kept segments before the name segment, `Class::`, then the kept
   * segments from the name segment on, each followed by one space; the segments kept are
   * exactly those whose text is not one of the four removed words, so `final` stays.
   */
  lemma LegacyDefinitionLayout(classDeclContext: string, methodDeclContext: string)
    requires LegacyDefinition(classDeclContext, methodDeclContext).Some?
    ensures var c := ClassDeclP(Legacy, classDeclContext).value.value;
      var m := MethodDeclP(Legacy, methodDeclContext).value.value;
      var k := m.nameSegment;
      && k < |m.segments|
      && LegacyDefinition(classDeclContext, methodDeclContext).value ==
        SpacedTexts(Kept(m.segments[..k], RemovedSegments)) + c.className + "::" +
        SpacedTexts(Kept(m.segments[k..], RemovedSegments))
    ensures "final" !in RemovedSegments
  {
    var c := ClassDeclP(Legacy, classDeclContext).value.value;
    var m := MethodDeclP(Legacy, methodDeclContext).value.value;
    MethodDeclShape(Legacy, methodDeclContext);
    assert LegacyDefinition(classDeclContext, methodDeclContext).value == Decl(c.className, m, RemovedSegments);
    DeclIsKept(c.className, m, RemovedSegments);
    FinalIsNotRemoved();
  }

  lemma FinalIsNotRemoved()
    ensures "final" !in RemovedSegments
  {
    assert forall w :: w in RemovedSegments ==> |w| != 5;
  }

  /**
   * Unlike the core definer, the legacy one does not trim: its definition ends with the
   * space written after the last kept segment, and the name segment is always kept.
   */
  lemma LegacyDefinitionIsUntrimmed(classDeclContext: string, methodDeclContext: string)
    requires LegacyDefinition(classDeclContext, methodDeclContext).Some?
    ensures var r := LegacyDefinition(classDeclContext, methodDeclContext).value;
      r != [] && r[|r| - 1] == ' '
  {
    MethodDeclShape(Legacy, methodDeclContext);
    DeclEndsWithSpace(ClassDeclP(Legacy, classDeclContext).value.value.className,
      MethodDeclP(Legacy, methodDeclContext).value.value);
  }

  /** The name segment of a parsed declaration ends in `)`, so no removed word matches it. */
  lemma DeclEndsWithSpace(className: string, m: MethodDecl)
    requires WellNamed(m)
    ensures var r := Decl(className, m, RemovedSegments); r != [] && r[|r| - 1] == ' '
  {
    var sg := m.segments[m.nameSegment];
    assert IsFunctionLike(sg) && SegmentFits(sg);
    NameSegmentIsKept(sg);
    DeclEndsWithKept(className, m, RemovedSegments);
  }

  /** A function-like segment with parentheses is not one of the removed words. */
  lemma NameSegmentIsKept(sg: Segment)
    requires IsFunctionLike(sg) && SegmentFits(sg)
    ensures sg.text !in RemovedSegments
  {
    var t := sg.text;
    var n :| 0 < n < |t| && IsNameText(t[..n]) && IsGroup(t[n..], Paren);
    var g := t[n..];
    assert g[|g| - 1] == t[|t| - 1];
    ClosedIsNotRemoved(t);
  }

  /** Each removed word ends with a letter. */
  lemma ClosedIsNotRemoved(t: string)
    requires t != [] && t[|t| - 1] == ')'
    ensures t !in RemovedSegments
  {
  }
}
