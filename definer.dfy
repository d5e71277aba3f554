/**
 * The definer of src/core/definer.ts: finds the class the cursor is in, parses the selected
 * method declarations and writes each one as a definition `Class::name(...)` followed by
 * the configured body.
 */
module Definers {
  import opened Options
  import opened Text
  import opened Lexicon
  import opened Grammar
  import opened Declarations
  import opened Tokenizers
  import opened Parsers

  /** The selected declarations and the document text up to the cursor. */
  datatype EditorContext = EditorContext(selection: string, textUpToCursor: string)

  datatype DefinerConfig = DefinerConfig(body: string, discardedSegments: seq<string>)

  const DefaultBody := "\n{\n}\n"

  /** The field initialisers of `DefinerConfig`. */
  const DefaultConfig := DefinerConfig(DefaultBody, ["override", "virtual", "explicit", "static", "final"])

  /** `defineMethod`: the declaration text, trimmed. */
  function Definition(c: ClassDecl, m: MethodDecl, config: DefinerConfig): (r: string)
    ensures IsTrimmed(r)
  {
    TrimIsTrimmed(Decl(c.className, m, config.discardedSegments));
    Trim(Decl(c.className, m, config.discardedSegments))
  }

  /**
   * `allDefs` after the loop of `defineMethods` has seen `ms`: each turn appends the
   * definition and the body, trims the end and appends an empty line.
   */
  function AllDefs(c: ClassDecl, ms: seq<MethodDecl>, config: DefinerConfig): (r: string)
    ensures ms == [] <==> r == []
  {
    if ms == [] then ""
    else TrimEnd(AllDefs(c, ms[..|ms| - 1], config) + Definition(c, ms[|ms| - 1], config) + config.body) + "\n\n"
  }

  lemma AllDefsStep(c: ClassDecl, ms: seq<MethodDecl>, i: nat, config: DefinerConfig)
    requires i < |ms|
    ensures AllDefs(c, ms[..i + 1], config) ==
      TrimEnd(AllDefs(c, ms[..i], config) + Definition(c, ms[i], config) + config.body) + "\n\n"
  {
    assert ms[..i + 1][..i] == ms[..i];
  }

  /** `defineMethods`: None when no class encloses the cursor or no declaration parses. */
  function Definitions(context: EditorContext, config: DefinerConfig): (r: Option<string>)
    ensures r.Some? ==> IsTrimmed(r.value)
  {
    match TextUpToCursor(context.textUpToCursor)
    case None => None
    case Some(c) =>
      match MethodDecls(Core, context.selection).value
      case None => None
      case Some(ms) => TrimIsTrimmed(AllDefs(c, ms, config)); Some(Trim(AllDefs(c, ms, config)))
  }

  class Definer {
    const editorContext: EditorContext
    const definerConfig: DefinerConfig

    constructor(editorContext: EditorContext, config: DefinerConfig)
      ensures this.editorContext == editorContext && definerConfig == config
    {
      this.editorContext := editorContext;
      this.definerConfig := config;
    }

    /** `defineMethods`: one tokenizer and parser over the text up to the cursor, another over the selection. */
    method DefineMethods() returns (r: Option<string>)
      ensures r == Definitions(editorContext, definerConfig)
    {
      var tokenizer := new Tokenizer(editorContext.textUpToCursor);
      var parser := new Parser(tokenizer);
      var classDecl := parser.ParseTextUpToCursor();
      if classDecl.None? {
        return None;
      }
      tokenizer := new Tokenizer(editorContext.selection);
      parser := new Parser(tokenizer);
      var methodDecls := parser.ParseMethodDecls();
      if methodDecls.None? {
        return None;
      }
      var ms := methodDecls.value;
      var allDefs := "";
      for i := 0 to |ms|
        invariant allDefs == AllDefs(classDecl.value, ms[..i], definerConfig)
      {
        var def := DefineMethod(classDecl.value, ms[i]);
        allDefs := allDefs + def;
        allDefs := allDefs + definerConfig.body;
        allDefs := TrimEnd(allDefs);
        allDefs := allDefs + "\n\n";
        AllDefsStep(classDecl.value, ms, i, definerConfig);
      }
      assert ms[..|ms|] == ms;
      return Some(Trim(allDefs));
    }

    /** `defineMethod`: the declaration loop, then `trim`. */
    method DefineMethod(classDecl: ClassDecl, methodDecl: MethodDecl) returns (decl: string)
      ensures decl == Definition(classDecl, methodDecl, definerConfig)
    {
      decl := BuildDecl(classDecl.className, methodDecl, definerConfig.discardedSegments);
      decl := Trim(decl);
    }
  }

  /**
   * What a definition says: the kept segments before the name segment, `Class::`, then the
   * kept segments from the name segment on, each followed by one space, and the whole trimmed.
   * Only segments whose text is not discarded appear, in their order.
   */
  lemma DefinitionLayout(c: ClassDecl, m: MethodDecl, config: DefinerConfig)
    requires m.nameSegment < |m.segments|
    ensures Definition(c, m, config) ==
      Trim(SpacedTexts(Kept(m.segments[..m.nameSegment], config.discardedSegments)) + c.className + "::" +
           SpacedTexts(Kept(m.segments[m.nameSegment..], config.discardedSegments)))
  {
    DeclIsKept(c.className, m, config.discardedSegments);
  }

  /** A definition starts and ends with something other than white space. */
  lemma DefinitionIsTrimmed(c: ClassDecl, m: MethodDecl, config: DefinerConfig)
    ensures IsTrimmed(Definition(c, m, config))
  {
    TrimIsTrimmed(Decl(c.className, m, config.discardedSegments));
  }

  /** With an empty body, a single declaration gives exactly its definition. */
  lemma SingleWithEmptyBody(c: ClassDecl, m: MethodDecl, config: DefinerConfig)
    requires config.body == ""
    ensures Trim(AllDefs(c, [m], config)) == Definition(c, m, config)
  {
    SingleAllDefs(c, m, config);
    TrimOfPadded(Definition(c, m, config), "\n\n");
  }

  /** With an empty body, one declaration gives its definition and an empty line. */
  lemma SingleAllDefs(c: ClassDecl, m: MethodDecl, config: DefinerConfig)
    requires config.body == ""
    ensures AllDefs(c, [m], config) == Definition(c, m, config) + "\n\n"
  {
    var def := Definition(c, m, config);
    AllDefsStep(c, [m], 0, config);
    assert [m][..1] == [m] && [m][..0] == [];
    assert AllDefs(c, [], config) + def + config.body == def + "";
    TrimEndOfPadded(def, "");
  }

  /** The concatenation of the definitions, each followed by `tail`. */
  function Blocks(c: ClassDecl, ms: seq<MethodDecl>, config: DefinerConfig, tail: string): string
  {
    if ms == [] then "" else Blocks(c, ms[..|ms| - 1], config, tail) + Definition(c, ms[|ms| - 1], config) + tail
  }

  /**
   * With a body that is not all white space, such as the default one, every definition is
   * followed by the body without its trailing white space and then an empty line.
   */
  lemma {:induction false} AllDefsAreBlocks(c: ClassDecl, ms: seq<MethodDecl>, config: DefinerConfig)
    requires exists i :: 0 <= i < |config.body| && !IsSpace(config.body[i])
    ensures AllDefs(c, ms, config) == Blocks(c, ms, config, TrimEnd(config.body) + "\n\n")
    decreases |ms|
  {
    if ms != [] {
      var init := ms[..|ms| - 1];
      var x := AllDefs(c, init, config) + Definition(c, ms[|ms| - 1], config);
      var tail := TrimEnd(config.body) + "\n\n";
      AllDefsAreBlocks(c, init, config);
      TrimEndAppend(x, config.body);
      assert AllDefs(c, ms, config) == (x + TrimEnd(config.body)) + "\n\n";
      Assoc(x, TrimEnd(config.body), "\n\n");
      assert Blocks(c, ms, config, tail) == x + tail;
    }
  }

  /** The default body has a non-space character, so `AllDefsAreBlocks` applies to it. */
  lemma DefaultBodyBlocks(c: ClassDecl, ms: seq<MethodDecl>)
    ensures AllDefs(c, ms, DefaultConfig) == Blocks(c, ms, DefaultConfig, "\n{\n}\n\n")
  {
    DefaultBodyTrimmed();
    AllDefsAreBlocks(c, ms, DefaultConfig);
  }

  lemma DefaultBodyTrimmed()
    ensures !IsSpace(DefaultBody[1])
    ensures TrimEnd(DefaultBody) + "\n\n" == "\n{\n}\n\n"
  {
    assert DefaultBody[..|DefaultBody| - 1] == "\n{\n}";
  }

  /** The result is None exactly when no class encloses the cursor or no declaration parses. */
  lemma DefinitionsNone(context: EditorContext, config: DefinerConfig)
    ensures Definitions(context, config).None? <==>
      TextUpToCursor(context.textUpToCursor).None? || MethodDecls(Core, context.selection).value.None?
  {
  }
}
