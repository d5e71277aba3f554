/**
 * The recursive-descent parser of src/core/parser.ts (and its older copy in src/extension.ts)
 * as functions. Each production takes the tokenizer text on entry and returns a Step: the
 * parsed value (None for the source's `undefined`) and the tokenizer text on exit. Pushing a
 * token back (`prepend`) is writing its text in front of the rest. The two parsers differ only
 * in their lexer, in what `nextGoodToken` skips and in the class header, so one set of
 * functions, indexed by the dialect, describes both. The classes in parser.dfy and legacy.dfy
 * are proved to follow these functions.
 */
module Grammar {
  import opened Options
  import opened Text
  import opened Lexicon
  import opened Algorithm

  datatype Step<T> = Step(value: Option<T>, rest: string)

  /** `{ name, args }`: args are None when no `<` follows and [] when the input ends after the name. */
  datatype ClassName = ClassName(name: string, args: Option<seq<ClassName>>)

  datatype BaseDecl = BaseDecl(access: Option<string>, className: ClassName)

  datatype ClassDecl = ClassDecl(className: string, attribute: Option<string>, bases: Option<seq<BaseDecl>>)

  /** OperatorName exists in the enum but nothing produces it. */
  datatype SegmentType =
    | AttributeLike | Symbol | OperatorName | MacroLike
    | FunctionLikeWithParen | FunctionLikeWithAngleBrackets | FunctionLikeWithBrackets

  datatype Segment = Segment(text: string, kind: SegmentType)

  datatype MethodDecl = MethodDecl(nameSegment: nat, segments: seq<Segment>)

  /** What the header part of `parseNameAndAttrInClassDecl` returns. */
  datatype NameAndAttr = NameAndAttr(name: string, attribute: Option<string>, postAttribute: Option<string>)

  /** The token kinds `nextGoodToken` skips: spaces, and in the core parser comments too. */
  predicate IsTrivia(d: Dialect, k: TokenType)
  {
    k == Space || (d == Core && k == Comment)
  }

  /**
   * `nextGoodToken`: the first token that is not trivia, and the text after it. When there
   * is none, the whole text has been consumed.
   */
  function NextGood(d: Dialect, s: string): (r: Step<Token>)
    ensures r.value.None? ==> r.rest == []
    ensures r.value.Some? ==> !IsTrivia(d, r.value.value.kind) && 0 < |r.value.value.text|
    ensures r.value.Some? ==> |r.value.value.text| + |r.rest| <= |s|
    ensures |r.rest| <= |s|
    decreases |s|
  {
    if s == [] then Step(None, s)
    else
      var t := Lex(d, s);
      var rest := s[|t.text|..];
      assert t.text + rest == s;
      if IsTrivia(d, t.kind) then NextGood(d, rest) else Step(Some(t), rest)
  }

  /**
   * Pushing back the token `nextGoodToken` returned gives a text whose first token is that
   * token again: the pushed-back text is the suffix the token was cut from.
   */
  lemma {:induction false} NextGoodRelex(d: Dialect, s: string)
    requires NextGood(d, s).value.Some?
    ensures Lex(d, PushBack(NextGood(d, s).value.value, NextGood(d, s).rest)) == NextGood(d, s).value.value
    decreases |s|
  {
    var t := Lex(d, s);
    var rest := s[|t.text|..];
    assert t.text + rest == s;
    if IsTrivia(d, t.kind) {
      NextGoodRelex(d, rest);
    }
  }

  /** Writing a token back in front of the text. */
  function PushBack(t: Token, rest: string): string
  {
    t.text + rest
  }

  /**
   * The tokenizer state after `tryParse`: the state on entry when the parse failed, the
   * state the parse left behind when it succeeded.
   */
  function TryParse<T>(entry: string, r: Step<T>): (t: Step<T>)
    ensures t.value == r.value
    ensures r.value.None? ==> t.rest == entry
    ensures r.value.Some? ==> t.rest == r.rest
  {
    if r.value.None? then Step(None, entry) else r
  }

  // ---------------------------------------------------------------------------
  // Names

  predicate IsNameKind(k: TokenType)
  {
    k == Ident || k == ColumnColumn || k == Tilde
  }

  /** The loop of `parseQualifiedName`, with the name so far and the kind of its last token. */
  function QualLoop(d: Dialect, s: string, name: string, last: Option<TokenType>): (r: Step<string>)
    ensures r.value.Some? && |r.value.value| > |name| ==> |r.rest| < |s|
    ensures |r.rest| <= |s|
    ensures r.value.Some? && |r.value.value| >= |name|
    decreases |s|
  {
    var g := NextGood(d, s);
    match g.value
    case None => Step(Some(name), g.rest)
    case Some(t) =>
      if !IsNameKind(t.kind) || last == Some(t.kind) then Step(Some(name), PushBack(t, g.rest))
      else QualLoop(d, g.rest, name + t.text, Some(t.kind))
  }

  /** `parseQualifiedName`: Ident, `::` and `~` tokens, never two of the same kind in a row. */
  function QualifiedName(d: Dialect, s: string): (r: Step<string>)
    ensures r.value.Some? ==> r.value.value != [] && |r.rest| < |s|
    ensures |r.rest| <= |s|
  {
    var q := QualLoop(d, s, "", None);
    if q.value.value == "" then Step(None, q.rest) else q
  }

  /** `parseClassName`: a qualified name, optionally followed by a template argument list in `<` `>`. */
  function ClassNameP(d: Dialect, s: string): (r: Step<ClassName>)
    ensures r.value.Some? ==> |r.rest| < |s|
    ensures |r.rest| <= |s|
    decreases |s|, 0, 0
  {
    var q := QualifiedName(d, s);
    if q.value.None? then Step(None, q.rest)
    else
      var name := q.value.value;
      var g := NextGood(d, q.rest);
      match g.value
      case None => Step(Some(ClassName(name, Some([]))), g.rest)
      case Some(t) =>
        if t.kind != LAngleBracket then Step(Some(ClassName(name, None)), PushBack(t, g.rest))
        else
          var a := ArgListLoop(d, g.rest, [], 0);
          if a.value.None? then Step(None, a.rest)
          else
            var close := NextGood(d, a.rest);
            if close.value.Some? && close.value.value.kind == RAngleBracket then
              Step(Some(ClassName(name, a.value)), close.rest)
            else Step(None, close.rest)
  }

  /**
   * `parseCommaSeparatedList` over `parseClassName` (`parseTemplateArgList`): `count`
   * commas have been read so far and `items` holds the names parsed.
   */
  function ArgListLoop(d: Dialect, s: string, items: seq<ClassName>, count: nat): (r: Step<seq<ClassName>>)
    ensures r.value.Some? ==> |r.rest| < |s| && |r.value.value| > |items|
    ensures |r.rest| <= |s|
    decreases |s|, 1, 99 - count
  {
    if count >= 99 then Step(None, s)
    else
      var item := ClassNameP(d, s);
      if item.value.None? then Step(None, item.rest)
      else
        var items' := items + [item.value.value];
        var g := NextGood(d, item.rest);
        match g.value
        case None => Step(Some(items'), g.rest)
        case Some(t) =>
          if t.kind != Comma then Step(Some(items'), PushBack(t, g.rest))
          else ArgListLoop(d, g.rest, items', count + 1)
  }

  /** `parseBase`: an optional access keyword, then a class name. */
  function Base(d: Dialect, s: string): (r: Step<BaseDecl>)
    ensures r.value.Some? ==> |r.rest| < |s|
    ensures |r.rest| <= |s|
  {
    var g := NextGood(d, s);
    match g.value
    case None => Step(None, g.rest)
    case Some(t) =>
      if t.kind == PublicKeyword then
        var c := ClassNameP(d, g.rest);
        if c.value.Some? then Step(Some(BaseDecl(Some(t.text), c.value.value)), c.rest) else Step(None, c.rest)
      else if t.kind == Ident then
        var c := ClassNameP(d, PushBack(t, g.rest));
        if c.value.Some? then Step(Some(BaseDecl(None, c.value.value)), c.rest) else Step(None, c.rest)
      else Step(None, g.rest)
  }

  /** `parseCommaSeparatedList` over `parseBase` (`parseBaseList`). */
  function BaseListLoop(d: Dialect, s: string, items: seq<BaseDecl>, count: nat): (r: Step<seq<BaseDecl>>)
    ensures r.value.Some? ==> |r.rest| < |s| && |r.value.value| > |items|
    ensures |r.rest| <= |s|
    decreases |s|, 99 - count
  {
    if count >= 99 then Step(None, s)
    else
      var item := Base(d, s);
      if item.value.None? then Step(None, item.rest)
      else
        var items' := items + [item.value.value];
        var g := NextGood(d, item.rest);
        match g.value
        case None => Step(Some(items'), g.rest)
        case Some(t) =>
          if t.kind != Comma then Step(Some(items'), PushBack(t, g.rest))
          else BaseListLoop(d, g.rest, items', count + 1)
  }

  function BaseList(d: Dialect, s: string): (r: Step<seq<BaseDecl>>)
    ensures r.value.Some? ==> |r.rest| < |s| && r.value.value != []
    ensures |r.rest| <= |s|
  {
    BaseListLoop(d, s, [], 0)
  }

  // ---------------------------------------------------------------------------
  // Segments

  /**
   * The bracket pairs `parseBracketContent` is called with: `[` `]` for an attribute, and the
   * opening token after a name with its closing partner.
   */
  datatype Bracket = Paren | Angle | Square

  function Opening(b: Bracket): TokenType
  {
    match b
    case Paren => LParen
    case Angle => LAngleBracket
    case Square => LBracket
  }

  function Closing(b: Bracket): TokenType
  {
    match b
    case Paren => RParen
    case Angle => RAngleBracket
    case Square => RBracket
  }

  /**
   * The loop of `parseBracketContent` over raw tokens: `owed` closing tokens are still
   * expected and `content` is the text taken so far.
   */
  function BracketLoop(d: Dialect, s: string, b: Bracket, owed: int, content: string): (r: Step<string>)
    ensures r.value.Some? ==> |r.rest| < |s|
    ensures |r.rest| <= |s|
    decreases |s|
  {
    if s == [] then Step(None, s)
    else
      var t := Lex(d, s);
      var rest := s[|t.text|..];
      var owed' := OwedAfter(t.kind, b, owed);
      if t.kind == Closing(b) && owed' == 0 then Step(Some(content + t.text), rest)
      else BracketLoop(d, rest, b, owed', content + t.text)
  }

  /** The count of unmatched opening tokens after one more token of kind `k`. */
  function OwedAfter(k: TokenType, b: Bracket, owed: int): int
  {
    if k == Opening(b) then owed + 1 else if k == Closing(b) then owed - 1 else owed
  }

  /** `parseBracketContent`: the opening token, everything up to the matching close and the close itself. */
  function BracketContent(d: Dialect, s: string, b: Bracket): (r: Step<string>)
    ensures r.value.Some? ==> |r.rest| < |s|
    ensures |r.rest| <= |s|
  {
    var g := NextGood(d, s);
    match g.value
    case None => Step(None, g.rest)
    case Some(t) =>
      if t.kind != Opening(b) then Step(None, g.rest)
      else BracketLoop(d, g.rest, b, 1, t.text)
  }

  /** `parseSymbolSegment`: a lone `&` or `*`. */
  function SymbolSegment(d: Dialect, s: string): (r: Step<Segment>)
    ensures r.value.Some? ==> |r.rest| < |s|
    ensures |r.rest| <= |s|
  {
    var g := NextGood(d, s);
    match g.value
    case None => Step(None, g.rest)
    case Some(t) =>
      if t.kind == Ampersand || t.kind == Star then Step(Some(Segment(t.text, Symbol)), g.rest)
      else Step(None, g.rest)
  }

  /** `parseAttributeLikeSegment`: a bracketed group such as `[[nodiscard]]`. */
  function AttributeLikeSegment(d: Dialect, s: string): (r: Step<Segment>)
    ensures r.value.Some? ==> |r.rest| < |s|
    ensures |r.rest| <= |s|
  {
    var g := NextGood(d, s);
    match g.value
    case None => Step(None, g.rest)
    case Some(t) =>
      if t.kind != LBracket then Step(None, g.rest)
      else
        var c := BracketContent(d, PushBack(t, g.rest), Square);
        if c.value.None? then Step(None, c.rest) else Step(Some(Segment(c.value.value, AttributeLike)), c.rest)
  }

  /** The bracket an opening token after a name starts, if it is one. */
  function BracketAfterName(k: TokenType): (r: Option<Bracket>)
    ensures r.Some? ==> Opening(r.value) == k
    ensures r.None? <==> k !in {LParen, LAngleBracket, LBracket}
  {
    if k == LParen then Some(Paren)
    else if k == LAngleBracket then Some(Angle)
    else if k == LBracket then Some(Square)
    else None
  }

  /** The segment type of a name followed by a bracketed group. */
  function FunctionLikeKind(b: Bracket): SegmentType
  {
    match b
    case Paren => FunctionLikeWithParen
    case Angle => FunctionLikeWithAngleBrackets
    case Square => FunctionLikeWithBrackets
  }

  /** `parseNamedSegment`: a qualified name, with its bracketed arguments when an opening token follows. */
  function NamedSegment(d: Dialect, s: string): (r: Step<Segment>)
    ensures r.value.Some? ==> |r.rest| < |s|
    ensures |r.rest| <= |s|
  {
    var q := QualifiedName(d, s);
    if q.value.None? then Step(None, q.rest) else AfterName(d, q.value.value, q.rest)
  }

  /** The rest of `parseNamedSegment` once the name has been read and `s` is left. */
  function AfterName(d: Dialect, name: string, s: string): (r: Step<Segment>)
    ensures |r.rest| <= |s|
  {
    var g := NextGood(d, s);
    match g.value
    case None => Step(Some(Segment(name, MacroLike)), g.rest)
    case Some(t) =>
      match BracketAfterName(t.kind)
      case Some(b) =>
        var c := BracketContent(d, PushBack(t, g.rest), b);
        if c.value.None? then Step(None, c.rest)
        else Step(Some(Segment(name + c.value.value, FunctionLikeKind(b))), c.rest)
      case None => Step(Some(Segment(name, MacroLike)), PushBack(t, g.rest))
  }

  /** `parseSegment`: named, then attribute-like, then symbol, each from the same text. */
  function SegmentP(d: Dialect, s: string): (r: Step<Segment>)
    ensures r.value.Some? ==> |r.rest| < |s|
    ensures r.value.None? ==> r.rest == s
  {
    var a := TryParse(s, NamedSegment(d, s));
    if a.value.Some? then a
    else
      var b := TryParse(s, AttributeLikeSegment(d, s));
      if b.value.Some? then b
      else TryParse(s, SymbolSegment(d, s))
  }

  // ---------------------------------------------------------------------------
  // Class declarations

  /**
   * The segment loop of `parseNameAndAttrInClassDecl`: segments up to a `:` or `{`, which is
   * pushed back. `count` is the number of segments already taken; more than 51 fail.
   */
  function HeaderLoop(d: Dialect, s: string, segs: seq<Segment>, count: nat): (r: Step<seq<Segment>>)
    ensures |r.rest| <= |s|
    ensures r.value.Some? ==> segs <= r.value.value
    decreases |s|
  {
    var g := NextGood(d, s);
    match g.value
    case None => Step(None, g.rest)
    case Some(t) =>
      if t.kind == Column || t.kind == LBrace then Step(Some(segs), PushBack(t, g.rest))
      else
        var sg := SegmentP(d, PushBack(t, g.rest));
        if sg.value.None? then Step(None, sg.rest)
        else if count > 50 then Step(None, sg.rest)
        else HeaderLoop(d, sg.rest, segs + [sg.value.value], count + 1)
  }

  /**
   * One turn of the segment loop as the parser takes it: `token` is the next good token of
   * `before`, `mid` the text after it, `pushed` the text with the token pushed back, and
   * `seg` and `after` what the segment parser reads from `pushed`.
   */
  lemma HeaderLoopAfter(d: Dialect, before: string, segs: seq<Segment>, count: nat, token: Option<Token>, mid: string,
                        pushed: string, seg: Option<Segment>, after: string, segs': seq<Segment>, count': nat)
    requires Step(token, mid) == NextGood(d, before) && token.Some?
    requires token.value.kind != Column && token.value.kind != LBrace
    requires pushed == token.value.text + mid && Step(seg, after) == SegmentP(d, pushed) && seg.Some?
    requires count <= 50 && segs' == segs + [seg.value] && count' == count + 1
    ensures |after| < |before| && HeaderLoop(d, before, segs, count) == HeaderLoop(d, after, segs', count')
  {
  }

  /** The candidate for the class name: a MacroLike segment other than `final`. */
  predicate IsClassNameCandidate(sg: Segment)
  {
    sg.text != "final" && sg.kind == MacroLike
  }

  /** The texts of the segments, each followed by one space. */
  function SpacedTexts(segs: seq<Segment>): string
  {
    if segs == [] then "" else segs[0].text + " " + SpacedTexts(segs[1..])
  }

  /** Appending a segment appends its text and one space. */
  lemma SpacedTextsAppend(segs: seq<Segment>, sg: Segment)
    ensures SpacedTexts(segs + [sg]) == SpacedTexts(segs) + sg.text + " "
  {
    if segs != [] {
      assert (segs + [sg])[1..] == segs[1..] + [sg];
      SpacedTextsAppend(segs[1..], sg);
    }
  }

  /** A slice one segment longer: its spaced texts gain that segment's text and a space. */
  lemma SpacedSliceSnoc(segs: seq<Segment>, j: nat, i: nat, acc: string)
    requires j <= i < |segs| && acc == SpacedTexts(segs[j..i])
    ensures acc + segs[i].text + " " == SpacedTexts(segs[j..i + 1])
  {
    assert segs[j..i + 1] == segs[j..i] + [segs[i]];
    SpacedTextsAppend(segs[j..i], segs[i]);
  }

  /** JavaScript's `s === "" ? undefined : s`. */
  function NonEmpty(s: string): (r: Option<string>)
    ensures r.None? <==> s == ""
    ensures r.Some? ==> r.value == s
  {
    if s == "" then None else Some(s)
  }

  /** `parseNameAndAttrInClassDecl` of the core parser: the keyword, then the name among the header segments. */
  function NameAndAttrP(d: Dialect, s: string): (r: Step<NameAndAttr>)
    ensures |r.rest| <= |s|
    ensures r.value.Some? ==> r.value.value.name != "final"
  {
    var k := NextGood(d, s);
    if k.value.None? || k.value.value.kind != ClassKeyword then Step(None, k.rest)
    else
      var h := HeaderLoop(d, k.rest, [], 0);
      if h.value.None? then Step(None, h.rest) else Step(NameAmong(h.value.value), h.rest)
  }

  /** The name among the header segments: the last candidate, if there is one. */
  function NameAmong(segs: seq<Segment>): (r: Option<NameAndAttr>)
    ensures r.Some? ==> exists i :: 0 <= i < |segs| && IsClassNameCandidate(segs[i]) && r.value.name == segs[i].text
  {
    if segs == [] then None
    else
      match LastIndexWhere(segs, IsClassNameCandidate)
      case None => None
      case Some(i) => Some(NameAt(segs, i))
  }

  /**
   * The segment at `i` as the name: the segments before it, joined with spaces and trimmed,
   * are the attribute and the ones after it the post-attribute; an empty text is none.
   */
  function NameAt(segs: seq<Segment>, i: nat): (r: NameAndAttr)
    requires i < |segs|
    ensures r.name == segs[i].text
    ensures r.attribute.Some? ==> i > 0
    ensures r.postAttribute.Some? ==> i + 1 < |segs|
  {
    assert i == 0 ==> segs[..i] == [];
    assert i + 1 == |segs| ==> segs[i + 1..] == [];
    NameAndAttr(segs[i].text, NonEmpty(Trim(SpacedTexts(segs[..i]))), NonEmpty(Trim(SpacedTexts(segs[i + 1..]))))
  }

  /** `parseNameAndAttrInClassDecl` of the legacy parser: the keyword, then one or two identifiers. */
  function LegacyNameAndAttr(d: Dialect, s: string): (r: Step<NameAndAttr>)
    ensures |r.rest| <= |s|
    ensures r.value.Some? ==> r.value.value.postAttribute.None?
  {
    var k := NextGood(d, s);
    if k.value.None? || k.value.value.kind != ClassKeyword then Step(None, k.rest)
    else
      var t1 := NextGood(d, k.rest);
      if t1.value.None? || t1.value.value.kind != Ident then Step(None, t1.rest)
      else
        var t2 := NextGood(d, t1.rest);
        match t2.value
        case None => Step(Some(NameAndAttr(t1.value.value.text, None, None)), t2.rest)
        case Some(t) =>
          if t.kind != Ident then Step(Some(NameAndAttr(t1.value.value.text, None, None)), PushBack(t, t2.rest))
          else Step(Some(NameAndAttr(t.text, Some(t1.value.value.text), None)), t2.rest)
  }

  /** `parseClassDecl`: the header, then `{`, or `:`, a base list and `{`. */
  function ClassDeclP(d: Dialect, s: string): (r: Step<ClassDecl>)
    ensures r.value.Some? ==> |r.rest| < |s|
    ensures |r.rest| <= |s|
  {
    var n := if d == Core then NameAndAttrP(d, s) else LegacyNameAndAttr(d, s);
    if n.value.None? then Step(None, n.rest)
    else
      var name := n.value.value.name;
      var attr := n.value.value.attribute;
      var g := NextGood(d, n.rest);
      match g.value
      case None => Step(None, g.rest)
      case Some(t) =>
        if t.kind == Column then
          var b := BaseList(d, g.rest);
          if b.value.None? then Step(None, b.rest)
          else
            var brace := NextGood(d, b.rest);
            if brace.value.Some? && brace.value.value.kind == LBrace then
              Step(Some(ClassDecl(name, attr, b.value)), brace.rest)
            else Step(None, brace.rest)
        else if t.kind == LBrace then Step(Some(ClassDecl(name, attr, None)), g.rest)
        else Step(None, g.rest)
  }

  // ---------------------------------------------------------------------------
  // Method declarations

  predicate IsFunctionLike(sg: Segment)
  {
    sg.kind == FunctionLikeWithParen
  }

  /** The loop of `parseMethodDecl`, with the segments parsed so far. */
  function MethodLoop(d: Dialect, s: string, segs: seq<Segment>): (r: Step<MethodDecl>)
    ensures r.value.Some? ==> |r.rest| < |s|
    ensures |r.rest| <= |s|
    decreases |s|
  {
    var sg := SegmentP(d, s);
    if sg.value.None? then Step(None, sg.rest)
    else
      var segs' := segs + [sg.value.value];
      var g := NextGood(d, sg.rest);
      match g.value
      case None => Step(None, g.rest)
      case Some(t) =>
        if t.kind == SemiColumn then
          match LastIndexWhere(segs', IsFunctionLike)
          case None => Step(None, g.rest)
          case Some(i) => Step(Some(MethodDecl(i, segs')), g.rest)
        else MethodLoop(d, PushBack(t, g.rest), segs')
  }

  /** `parseMethodDecl`: segments up to a `;`; the name is the last function-like one. */
  function MethodDeclP(d: Dialect, s: string): (r: Step<MethodDecl>)
    ensures r.value.Some? ==> |r.rest| < |s|
    ensures |r.rest| <= |s|
  {
    MethodLoop(d, s, [])
  }

  /** The loop of `parseMethodDecls`. */
  function MethodsLoop(d: Dialect, s: string, methods: seq<MethodDecl>): (r: Step<seq<MethodDecl>>)
    ensures |r.rest| <= |s|
    ensures r.value.Some? ==> r.value.value != [] && methods <= r.value.value
    decreases |s|
  {
    var m := MethodDeclP(d, s);
    if m.value.None? then Step(NonEmptyList(methods), m.rest)
    else MethodsLoop(d, m.rest, methods + [m.value.value])
  }

  function NonEmptyList<T>(s: seq<T>): (r: Option<seq<T>>)
    ensures r.None? <==> s == []
    ensures r.Some? ==> r.value == s
  {
    if s == [] then None else Some(s)
  }

  /** `parseMethodDecls`: the declarations that parse one after the other; None when there is none. */
  function MethodDecls(d: Dialect, s: string): (r: Step<seq<MethodDecl>>)
    ensures |r.rest| <= |s|
    ensures r.value.Some? ==> r.value.value != [] && MethodDeclP(d, s).value.Some? && r.value.value[0] == MethodDeclP(d, s).value.value
  {
    var m := MethodDeclP(d, s);
    assert m.value.Some? ==> [] + [m.value.value] == [m.value.value];
    MethodsLoop(d, s, [])
  }

  // ---------------------------------------------------------------------------
  // The enclosing class

  /** Tokens `parseTextUpToCursor` reads before giving up. */
  const TokenLimit := 200000

  /**
   * The loop of `parseTextUpToCursor` over raw core tokens: the scope stack it ends with, or
   * None once more than `limit` tokens have been read. A frame holds the class declaration
   * that opened it, or None for any other `{`.
   */
  function ScopeLoop(s: string, stack: seq<Option<ClassDecl>>, limit: int): (r: Option<seq<Option<ClassDecl>>>)
    ensures r.Some? ==> |r.value| <= |stack| + |s|
    decreases |s|
  {
    if s == [] then Some(stack)
    else if limit <= 0 then None
    else
      var t := Lex(Core, s);
      var c := ClassAtKeyword(t, s[|t.text|..]);
      ScopeLoop(c.rest, Frames(stack, t.kind, c.value), limit - 1)
  }

  /**
   * What `parseTextUpToCursor` reads after the token `t`, with `rest` the text after it: at a
   * class keyword, the `tryParse` of a class declaration from the keyword on; otherwise nothing.
   */
  function ClassAtKeyword(t: Token, rest: string): (r: Step<ClassDecl>)
    ensures |r.rest| <= |rest| || (r.value.Some? && |r.rest| < |PushBack(t, rest)|)
  {
    if t.kind == ClassKeyword then TryParse(rest, ClassDeclP(Core, PushBack(t, rest))) else Step(None, rest)
  }

  /** One turn of the loop of `parseTextUpToCursor`. */
  lemma ScopeLoopStep(s: string, stack: seq<Option<ClassDecl>>, limit: int, t: Token, rest: string, c: Step<ClassDecl>)
    requires s != [] && limit > 0
    requires t == Lex(Core, s) && rest == s[|t.text|..] && c == ClassAtKeyword(t, rest)
    ensures ScopeLoop(s, stack, limit) == ScopeLoop(c.rest, Frames(stack, t.kind, c.value), limit - 1)
  {
  }

  /**
   * One turn of the loop as the parser takes it: `t` is the token read from `before`, `mid`
   * the text after it, and `after` and `stack'` the text and the stack once the class
   * declaration, if any, has been tried.
   */
  lemma ScopeLoopAfter(before: string, stack: seq<Option<ClassDecl>>, limit: int, t: Token, mid: string,
                       after: string, stack': seq<Option<ClassDecl>>, limit': int)
    requires before != [] && limit > 0 && limit' == limit - 1
    requires t == Lex(Core, before) && mid == before[|t.text|..]
    requires after == ClassAtKeyword(t, mid).rest && stack' == Frames(stack, t.kind, ClassAtKeyword(t, mid).value)
    ensures |after| < |before| && ScopeLoop(before, stack, limit) == ScopeLoop(after, stack', limit')
  {
    var c := ClassAtKeyword(t, mid);
    assert |before| == |t.text| + |mid|;
    TurnShrinks(t, mid);
    ScopeLoopStep(before, stack, limit, t, mid, c);
    ScopeLoopSameLimit(after, stack', limit - 1, limit');
  }

  /** A turn of the loop consumes at least the token it read. */
  lemma TurnShrinks(t: Token, rest: string)
    requires t.text != []
    ensures |ClassAtKeyword(t, rest).rest| < |t.text| + |rest|
  {
  }

  /** The loop from equal limits. */
  lemma ScopeLoopSameLimit(s: string, stack: seq<Option<ClassDecl>>, limit: int, limit': int)
    requires limit == limit'
    ensures ScopeLoop(s, stack, limit) == ScopeLoop(s, stack, limit')
  {
  }

  /**
   * The scope stack after one token: a parsed class declaration or a `{` opens a frame, a `}`
   * closes the innermost one if there is one, and nothing else changes the stack.
   */
  function Frames(stack: seq<Option<ClassDecl>>, k: TokenType, c: Option<ClassDecl>): (r: seq<Option<ClassDecl>>)
    ensures (stack <= r && |r| <= |stack| + 1) || (|stack| > 0 && r == stack[..|stack| - 1])
  {
    if k == ClassKeyword then (if c.Some? then stack + [c] else stack)
    else if k == LBrace then stack + [None]
    else if k == RBrace then (if |stack| > 0 then stack[..|stack| - 1] else stack)
    else stack
  }

  predicate IsClassFrame(f: Option<ClassDecl>)
  {
    f.Some?
  }

  /** The declaration of the innermost frame that has one. */
  function Innermost(stack: seq<Option<ClassDecl>>): (r: Option<ClassDecl>)
    ensures r.Some? <==> exists i :: 0 <= i < |stack| && stack[i].Some?
    ensures r.Some? ==> r in stack
  {
    match LastIndexWhere(stack, IsClassFrame)
    case None => None
    case Some(i) => stack[i]
  }

  /** `parseTextUpToCursor`: the class whose body the end of the text is in. */
  function TextUpToCursor(s: string): (r: Option<ClassDecl>)
    ensures r.Some? ==> ScopeLoop(s, [], TokenLimit).Some? && r in ScopeLoop(s, [], TokenLimit).value
  {
    match ScopeLoop(s, [], TokenLimit)
    case None => None
    case Some(stack) => Innermost(stack)
  }
}
