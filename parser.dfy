/**
 * The parser of src/core/parser.ts: every production reads and pushes back the text of one
 * shared core tokenizer. Each method is proved to return what the matching Grammar function
 * returns on the text it starts from, and to leave the tokenizer where that function says.
 */
module Parsers {
  import opened Options
  import opened Text
  import opened Lexicon
  import opened Algorithm
  import opened Grammar
  import opened Tokenizers

  class Parser {
    const tokenizer: Tokenizer

    constructor(tokenizer: Tokenizer)
      ensures this.tokenizer == tokenizer
    {
      this.tokenizer := tokenizer;
    }

    /** `nextGoodToken`: skips spaces and comments. */
    method NextGoodToken() returns (r: Option<Token>)
      modifies tokenizer
      ensures Step(r, tokenizer.text) == NextGood(Core, old(tokenizer.text))
    {
      ghost var entry := tokenizer.text;
      while true
        invariant NextGood(Core, tokenizer.text) == NextGood(Core, entry)
        decreases |tokenizer.text|
      {
        var t := tokenizer.Next();
        if t.None? {
          return None;
        }
        if !IsTrivia(Core, t.value.kind) {
          return t;
        }
      }
    }

    /** `parseQualifiedName`. */
    method ParseQualifiedName() returns (r: Option<string>)
      modifies tokenizer
      ensures Step(r, tokenizer.text) == QualifiedName(Core, old(tokenizer.text))
    {
      var name := "";
      var last: Option<TokenType> := None;
      ghost var goal := QualLoop(Core, tokenizer.text, name, last);
      while true
        invariant QualLoop(Core, tokenizer.text, name, last) == goal
        decreases |tokenizer.text|
      {
        ghost var before := tokenizer.text;
        var t := NextGoodToken();
        if t.None? {
          assert QualLoop(Core, before, name, last) == Step(Some(name), tokenizer.text);
          break;
        }
        var token := t.value;
        if !IsNameKind(token.kind) || last == Some(token.kind) {
          tokenizer.Prepend(token.text);
          assert QualLoop(Core, before, name, last) == Step(Some(name), tokenizer.text);
          break;
        }
        name := name + token.text;
        last := Some(token.kind);
      }
      r := if name == "" then None else Some(name);
    }

    /** `parseClassName`. */
    method ParseClassName() returns (r: Option<ClassName>)
      modifies tokenizer
      ensures Step(r, tokenizer.text) == ClassNameP(Core, old(tokenizer.text))
      decreases |tokenizer.text|, 0
    {
      var ident := ParseQualifiedName();
      if ident.None? {
        return None;
      }
      var open := NextGoodToken();
      if open.None? {
        return Some(ClassName(ident.value, Some([])));
      }
      if open.value.kind != LAngleBracket {
        tokenizer.Prepend(open.value.text);
        return Some(ClassName(ident.value, None));
      }
      var args := ParseTemplateArgList();
      if args.None? {
        return None;
      }
      var close := NextGoodToken();
      if close.None? || close.value.kind != RAngleBracket {
        return None;
      }
      return Some(ClassName(ident.value, args));
    }

    /** `parseTemplateArgList`: `parseCommaSeparatedList` with `parseClassName` as the item parser. */
    method ParseTemplateArgList() returns (r: Option<seq<ClassName>>)
      modifies tokenizer
      ensures Step(r, tokenizer.text) == ArgListLoop(Core, old(tokenizer.text), [], 0)
      decreases |tokenizer.text|, 1
    {
      ghost var entry := tokenizer.text;
      var items: seq<ClassName> := [];
      var count := 0;
      ghost var goal := ArgListLoop(Core, tokenizer.text, items, count);
      while count < 99
        invariant count <= 99
        invariant |tokenizer.text| <= |entry|
        invariant ArgListLoop(Core, tokenizer.text, items, count) == goal
        decreases 99 - count
      {
        var item := ParseClassName();
        if item.None? {
          return None;
        }
        items := items + [item.value];
        var comma := NextGoodToken();
        if comma.None? {
          return Some(items);
        }
        if comma.value.kind != Comma {
          tokenizer.Prepend(comma.value.text);
          return Some(items);
        }
        count := count + 1;
      }
      return None;
    }

    /** `parseBase`. */
    method ParseBase() returns (r: Option<BaseDecl>)
      modifies tokenizer
      ensures Step(r, tokenizer.text) == Base(Core, old(tokenizer.text))
    {
      var t := NextGoodToken();
      if t.None? {
        return None;
      }
      var token := t.value;
      if token.kind == PublicKeyword {
        var c := ParseClassName();
        if c.Some? {
          return Some(BaseDecl(Some(token.text), c.value));
        }
      } else if token.kind == Ident {
        tokenizer.Prepend(token.text);
        var c := ParseClassName();
        if c.Some? {
          return Some(BaseDecl(None, c.value));
        }
      } else {
        return None;
      }
      return None;
    }

    /** `parseBaseList`: `parseCommaSeparatedList` with `parseBase` as the item parser. */
    method ParseBaseList() returns (r: Option<seq<BaseDecl>>)
      modifies tokenizer
      ensures Step(r, tokenizer.text) == BaseList(Core, old(tokenizer.text))
    {
      var items: seq<BaseDecl> := [];
      var count := 0;
      ghost var goal := BaseListLoop(Core, tokenizer.text, items, count);
      while count < 99
        invariant count <= 99
        invariant BaseListLoop(Core, tokenizer.text, items, count) == goal
        decreases 99 - count
      {
        var item := ParseBase();
        if item.None? {
          return None;
        }
        items := items + [item.value];
        var comma := NextGoodToken();
        if comma.None? {
          return Some(items);
        }
        if comma.value.kind != Comma {
          tokenizer.Prepend(comma.value.text);
          return Some(items);
        }
        count := count + 1;
      }
      return None;
    }

    /** `parseBracketContent`: the opening token, then the scan for its matching close. */
    method ParseBracketContent(b: Bracket) returns (r: Option<string>)
      modifies tokenizer
      ensures Step(r, tokenizer.text) == BracketContent(Core, old(tokenizer.text), b)
    {
      var begin := NextGoodToken();
      if begin.None? || begin.value.kind != Opening(b) {
        return None;
      }
      r := ScanBracketContent(b, begin.value.text);
    }

    /**
     * The loop of `parseBracketContent` over raw tokens: `owed` counts the opening tokens
     * still waiting for a closing one, and every token's text is kept.
     */
    method ScanBracketContent(b: Bracket, begin: string) returns (r: Option<string>)
      modifies tokenizer
      ensures Step(r, tokenizer.text) == BracketLoop(Core, old(tokenizer.text), b, 1, begin)
    {
      var owed := 1;
      var content := begin;
      ghost var goal := BracketLoop(Core, tokenizer.text, b, owed, content);
      while true
        invariant BracketLoop(Core, tokenizer.text, b, owed, content) == goal
        decreases |tokenizer.text|
      {
        var t := tokenizer.Next();
        if t.None? {
          return None;
        }
        var token := t.value;
        owed := OwedAfter(token.kind, b, owed);
        content := content + token.text;
        if token.kind == Closing(b) && owed == 0 {
          return Some(content);
        }
      }
    }

    /** `parseSymbolSegment`. */
    method ParseSymbolSegment() returns (r: Option<Segment>)
      modifies tokenizer
      ensures Step(r, tokenizer.text) == SymbolSegment(Core, old(tokenizer.text))
    {
      var t := NextGoodToken();
      if t.None? {
        return None;
      }
      if t.value.kind == Ampersand || t.value.kind == Star {
        return Some(Segment(t.value.text, Symbol));
      }
      return None;
    }

    /** `parseAttributeLikeSegment`. */
    method ParseAttributeLikeSegment() returns (r: Option<Segment>)
      modifies tokenizer
      ensures Step(r, tokenizer.text) == AttributeLikeSegment(Core, old(tokenizer.text))
    {
      var t := NextGoodToken();
      if t.None? {
        return None;
      }
      if t.value.kind == LBracket {
        tokenizer.Prepend(t.value.text);
        var content := ParseBracketContent(Square);
        if content.None? {
          return None;
        }
        return Some(Segment(content.value, AttributeLike));
      }
      return None;
    }

    /** `parseNamedSegment`. */
    method ParseNamedSegment() returns (r: Option<Segment>)
      modifies tokenizer
      ensures Step(r, tokenizer.text) == NamedSegment(Core, old(tokenizer.text))
    {
      var name := ParseQualifiedName();
      if name.None? {
        return None;
      }
      var t := NextGoodToken();
      if t.None? {
        return Some(Segment(name.value, MacroLike));
      }
      var bracket := BracketAfterName(t.value.kind);
      if bracket.Some? {
        tokenizer.Prepend(t.value.text);
        var content := ParseBracketContent(bracket.value);
        if content.None? {
          return None;
        }
        return Some(Segment(name.value + content.value, FunctionLikeKind(bracket.value)));
      }
      tokenizer.Prepend(t.value.text);
      return Some(Segment(name.value, MacroLike));
    }

    /**
     * `parseSegment`. Each alternative runs under `tryParse`: the text is saved first and
     * put back when the alternative fails.
     */
    method ParseSegment() returns (r: Option<Segment>)
      modifies tokenizer
      ensures Step(r, tokenizer.text) == SegmentP(Core, old(tokenizer.text))
    {
      var saved := tokenizer.text;
      r := ParseNamedSegment();
      if r.Some? {
        return;
      }
      tokenizer.text := saved;
      r := ParseAttributeLikeSegment();
      if r.Some? {
        return;
      }
      tokenizer.text := saved;
      r := ParseSymbolSegment();
      if r.Some? {
        return;
      }
      tokenizer.text := saved;
    }

    /** The attribute and post-attribute strings: the segments before and after the name, each followed by a space. */
    method JoinAroundName(segs: seq<Segment>, key: nat) returns (attr: string, postAttr: string)
      requires key < |segs|
      ensures attr == SpacedTexts(segs[..key]) && postAttr == SpacedTexts(segs[key + 1..])
    {
      attr := "";
      postAttr := "";
      for i := 0 to |segs|
        invariant i <= key ==> attr == SpacedTexts(segs[0..i]) && postAttr == ""
        invariant i > key ==> attr == SpacedTexts(segs[0..key]) && postAttr == SpacedTexts(segs[key + 1..i])
      {
        if i < key {
          SpacedSliceSnoc(segs, 0, i, attr);
          attr := attr + segs[i].text + " ";
        } else if i > key {
          SpacedSliceSnoc(segs, key + 1, i, postAttr);
          postAttr := postAttr + segs[i].text + " ";
        } else {
          assert segs[key + 1..i + 1] == [];
        }
      }
      assert segs[0..key] == segs[..key] && segs[key + 1..|segs|] == segs[key + 1..];
    }

    /** `parseNameAndAttrInClassDecl`: at most 51 segments between the keyword and the `:` or `{`. */
    method ParseNameAndAttrInClassDecl() returns (r: Option<NameAndAttr>)
      modifies tokenizer
      ensures Step(r, tokenizer.text) == NameAndAttrP(Core, old(tokenizer.text))
    {
      var keyword := NextGoodToken();
      if keyword.None? || keyword.value.kind != ClassKeyword {
        return None;
      }
      var count := 0;
      var segments: seq<Segment> := [];
      ghost var goal := HeaderLoop(Core, tokenizer.text, segments, count);
      while true
        invariant HeaderLoop(Core, tokenizer.text, segments, count) == goal
        decreases |tokenizer.text|
      {
        ghost var before, segments0, count0 := tokenizer.text, segments, count;
        var token := NextGoodToken();
        if token.None? {
          return None;
        }
        ghost var mid := tokenizer.text;
        tokenizer.Prepend(token.value.text);
        if token.value.kind == Column || token.value.kind == LBrace {
          assert HeaderLoop(Core, before, segments, count) == Step(Some(segments), tokenizer.text);
          break;
        }
        ghost var pushed := tokenizer.text;
        var seg := ParseSegment();
        if seg.None? {
          return None;
        }
        segments := segments + [seg.value];
        if count > 50 {
          return None;
        }
        count := count + 1;
        HeaderLoopAfter(Core, before, segments0, count0, token, mid, pushed, seg, tokenizer.text, segments, count);
      }
      r := NameAmongSegments(segments);
    }

    /**
     * The end of `parseNameAndAttrInClassDecl`: the last MacroLike segment other than `final`
     * is the name, the segments before and after it the attribute and post-attribute.
     */
    method NameAmongSegments(segments: seq<Segment>) returns (r: Option<NameAndAttr>)
      ensures r == NameAmong(segments)
    {
      if |segments| == 0 {
        return None;
      }
      var key := FindLastIndex(segments, IsClassNameCandidate);
      if key.None? {
        return None;
      }
      var attr, postAttr := JoinAroundName(segments, key.value);
      return Some(NameAndAttr(segments[key.value].text, NonEmpty(Trim(attr)), NonEmpty(Trim(postAttr))));
    }

    /** `parseClassDecl`. */
    method ParseClassDecl() returns (r: Option<ClassDecl>)
      modifies tokenizer
      ensures Step(r, tokenizer.text) == ClassDeclP(Core, old(tokenizer.text))
    {
      var nameAndAttr := ParseNameAndAttrInClassDecl();
      if nameAndAttr.None? {
        return None;
      }
      var token := NextGoodToken();
      if token.None? {
        return None;
      }
      if token.value.kind == Column {
        var bases := ParseBaseList();
        if bases.Some? {
          var brace := NextGoodToken();
          if brace.None? || brace.value.kind != LBrace {
            return None;
          }
          return Some(ClassDecl(nameAndAttr.value.name, nameAndAttr.value.attribute, bases));
        }
        return None;
      } else if token.value.kind == LBrace {
        return Some(ClassDecl(nameAndAttr.value.name, nameAndAttr.value.attribute, None));
      } else {
        return None;
      }
    }

    /** `parseMethodDecl`: segments until a `;`, then the last function-like segment is the name. */
    method ParseMethodDecl() returns (r: Option<MethodDecl>)
      modifies tokenizer
      ensures Step(r, tokenizer.text) == MethodDeclP(Core, old(tokenizer.text))
    {
      var segments: seq<Segment> := [];
      ghost var goal := MethodLoop(Core, tokenizer.text, segments);
      while true
        invariant MethodLoop(Core, tokenizer.text, segments) == goal
        decreases |tokenizer.text|
      {
        ghost var before := tokenizer.text;
        var seg := ParseSegment();
        if seg.None? {
          return None;
        }
        segments := segments + [seg.value];
        var semi := NextGoodToken();
        if semi.None? {
          return None;
        }
        if semi.value.kind == SemiColumn {
          var i := FindLastIndex(segments, IsFunctionLike);
          if i.None? {
            return None;
          }
          return Some(MethodDecl(i.value, segments));
        }
        tokenizer.Prepend(semi.value.text);
      }
    }

    /** `parseMethodDecls`. */
    method ParseMethodDecls() returns (r: Option<seq<MethodDecl>>)
      modifies tokenizer
      ensures Step(r, tokenizer.text) == MethodDecls(Core, old(tokenizer.text))
    {
      var methods: seq<MethodDecl> := [];
      ghost var goal := MethodsLoop(Core, tokenizer.text, methods);
      while true
        invariant MethodsLoop(Core, tokenizer.text, methods) == goal
        decreases |tokenizer.text|
      {
        ghost var before := tokenizer.text;
        var m := ParseMethodDecl();
        if m.None? {
          assert MethodsLoop(Core, before, methods) == Step(NonEmptyList(methods), tokenizer.text);
          break;
        }
        methods := methods + [m.value];
      }
      r := if |methods| > 0 then Some(methods) else None;
    }

    /**
     * The `tryParse` call of `parseTextUpToCursor`: the keyword's text is pushed back and a
     * class declaration parsed; on failure the text is what it was before the push-back.
     */
    method TryParseClassDeclAfter(keyword: string) returns (r: Option<ClassDecl>)
      modifies tokenizer
      ensures Step(r, tokenizer.text) == TryParse(old(tokenizer.text), ClassDeclP(Core, keyword + old(tokenizer.text)))
    {
      var saved := tokenizer.text;
      tokenizer.Prepend(keyword);
      r := ParseClassDecl();
      if r.None? {
        tokenizer.text := saved;
      }
    }

    /**
     * `parseTextUpToCursor`: follows the braces over raw tokens, pushing a frame for every
     * class declaration that parses and for every other `{`.
     */
    method ParseTextUpToCursor() returns (r: Option<ClassDecl>)
      modifies tokenizer
      ensures r == TextUpToCursor(old(tokenizer.text))
    {
      var scopeStack: seq<Option<ClassDecl>> := [];
      var limit := TokenLimit;
      ghost var goal := ScopeLoop(tokenizer.text, scopeStack, limit);
      while true
        invariant ScopeLoop(tokenizer.text, scopeStack, limit) == goal
        decreases |tokenizer.text|
      {
        ghost var before, stack0, limit0 := tokenizer.text, scopeStack, limit;
        var t := tokenizer.Next();
        if t.None? {
          break;
        }
        if limit <= 0 {
          return None;
        }
        limit := limit - 1;
        ghost var mid := tokenizer.text;
        scopeStack := Rescope(t.value, scopeStack);
        ScopeLoopAfter(before, stack0, limit0, t.value, mid, tokenizer.text, scopeStack, limit);
      }
      r := InnermostClass(scopeStack);
    }

    /**
     * The body of the loop of `parseTextUpToCursor` after the token has been read: the
     * `tryParse` of a class declaration at a class keyword, then the change to the stack.
     */
    method Rescope(token: Token, scopeStack: seq<Option<ClassDecl>>) returns (stack: seq<Option<ClassDecl>>)
      modifies tokenizer
      ensures var c := ClassAtKeyword(token, old(tokenizer.text));
        tokenizer.text == c.rest && stack == Frames(scopeStack, token.kind, c.value)
    {
      var classDecl: Option<ClassDecl> := None;
      if token.kind == ClassKeyword {
        classDecl := TryParseClassDeclAfter(token.text);
      }
      stack := Frames(scopeStack, token.kind, classDecl);
    }

    /** The end of `parseTextUpToCursor`: the innermost frame that holds a class declaration. */
    method InnermostClass(scopeStack: seq<Option<ClassDecl>>) returns (r: Option<ClassDecl>)
      ensures r == Innermost(scopeStack)
    {
      if |scopeStack| == 0 {
        return None;
      }
      var i := FindLastIndex(scopeStack, IsClassFrame);
      if i.None? {
        return None;
      }
      return scopeStack[i.value];
    }
  }
}
