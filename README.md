# cpp-def-paster, modelled in Dafny

cpp-def-paster is a VS Code extension that turns C++ method declarations into definitions.
The user selects declarations inside a class. The extension reads the document text up to
the cursor to find the class the cursor is in. It then writes each declaration back as
`Class::name(...)` followed by an empty body. All of this is string processing: a
tokenizer, a recursive-descent parser with backtracking, and a definer that writes the
text. This project models that core in Dafny and proves what it promises. It also models
the older single-file implementation still in src/extension.ts, and the version
arithmetic of the release script.

The project is organised as follows.

- `options.dfy` (`Options`): the `Option` type.
- `text.dfy` (`Text`):
  - the characters of JavaScript's `\s` and `\w`;
  - maximal runs of characters;
  - `trim`, `trimStart` and `trimEnd`, with their laws.
- `lexicon.dfy` (`Lexicon`):
  - `Lex(d, s)` is the token that `next()` cuts off a non-empty text `s`. The dialect `d`
    is `Core` for src/core/tokenizer.ts and `Legacy` for the tokenizer of src/extension.ts.
  - `Tokens(d, s)` is the whole token stream.
  - Lemmas cover losslessness, keyword boundaries, nested block comments, line comments,
    string literals and the legacy differences.
- `tokenizer.dfy` (`Tokenizers`):
  - `Tokenizer` is a class with the mutable field `text`. Its methods are proved to cut off
    exactly `Lex(Core, text)`.
  - `TokenizerStack` is a stack of tokenizer snapshots.
- `algorithm.dfy` (`Algorithm`): `findLastIndex` as a countdown loop. It is proved against
  the reference function `LastIndexWhere`.
- `grammar.dfy` (`Grammar`):
  - Every parser production is a function from the text on entry to a `Step`. A `Step`
    holds the production's result, or `None` for `undefined`, and the text it leaves
    behind.
  - The same functions serve both dialects. The two parsers' productions differ only in the
    lexer, the trivia they skip and the class header.
  - It also defines the scope-frame loop of `parseTextUpToCursor`.
- `grammar_properties.dfy` (`GrammarProperties`): what the productions guarantee.
  - Qualified names are runs of name tokens.
  - Lists are non-empty and capped at 99 items.
  - Bracket content runs from the opening bracket to the raw token that first brings the
    count of unmatched opening tokens back to zero, counted on tokens so that brackets in
    comments do not count; it is `undefined` when the text ends first.
  - Each segment's text has the shape its type says.
  - The class name is the last candidate segment.
  - A method's name segment is its last parenthesised segment.
  - Scope frames nest.
- `parser.dfy` (`Parsers`): the class `Parser` of src/core/parser.ts. Each method consumes
  the shared tokenizer's `text` and is proved to return, and to leave behind, exactly what
  its production function does.
- `declarations.dfy` (`Declarations`): the declaration text that both definers write, and
  the loop that writes it.
- `definer.dfy` (`Definers`): `DefinerConfig`, `EditorContext` and the class `Definer`
  (`defineMethods` and `defineMethod`), with the layout of the generated text.
- `legacy.dfy` (`LegacyParsers`):
  - the legacy `Tokenizer`, with its stack of saved texts;
  - the legacy `Parser`;
  - `defineMethod`.
- `release.dfy` (`Release`): `next_even_number`, `next_odd_number` and `bump_version` of
  scripts/trigger_release.py. It includes Python's `str.split('.')`, `int()` and `str()`
  on the pieces.

## Where the code behaves differently from its description

- **String literals.**
  - The tokenizer is meant to read a whole quoted literal, skipping escaped quotes. As
    written, `tokenizeStringLiteral` (src/core/tokenizer.ts:232-249) is entered only when
    the text starts with the quote. Its loop therefore takes the second branch on the first
    turn, so a StringLiteral token is always the single opening quote.
  - The escape text is also chosen from `quoteType` as a number. Single (0) gets `\"` and
    Double gets `\'`.
  - The model follows the code: `BackslashQuote`, `StringScan` and the loop of
    `Tokenizer.ScanString` are written as the code has them. `StringLiteralIsTheQuote`
    proves the result.
- **`tryParse`.**
  - `tryParse` (src/core/parser.ts:423-431) calls `push`, `pop` and `drop`, and `Tokenizer`
    has none of them. `TokenizerStack` has `push` and `pop` but no `drop`, and the parser
    does not use it.
  - The model follows the method's own documentation (src/core/parser.ts:415-422): the text
    is restored when the sub-parse returns `undefined`, and otherwise kept as the
    sub-parse left it. The legacy `tryParseSegment` (src/extension.ts:457-464) implements
    the same discipline with `save`/`restore`, and is modelled with it.
- **`parseBracketContent`.** It takes any pair of token types. Every caller passes one of
  `(` `)`, `<` `>` or `[` `]`, so the model takes a `Bracket` value naming the pair.

## Model

| member | source | states |
|---|---|---|
| Text.RunIsMaximal | src/core/tokenizer.ts:136-137 | a run of characters satisfying the class is maximal: every character in it satisfies the class and the one after it does not |
| Text.TrimEnd | src/core/definer.ts:63 | `trimEnd` removes only trailing white space: the result is a prefix of the input that does not end in white space, and everything cut off is white space |
| Text.TrimStart | src/core/definer.ts:84 | `trimStart` removes only leading white space: the result is a suffix that does not start with white space, and everything cut off is white space |
| Text.TrimIsTrimmed | src/core/definer.ts:84 | a trimmed text neither starts nor ends with white space |
| Text.TrimOfTrimmed | src/core/definer.ts:84 | trimming is idempotent: a text without white space at either end is unchanged |
| Text.TrimOfPadded | src/core/definer.ts:63-66 | trimming a trimmed text followed by white space gives the text back |
| Text.TrimEndAppend | src/core/definer.ts:62-63 | when the appended part has a non-space character, `trimEnd` only works on that part |
| Text.TrimEndOfPadded | src/core/definer.ts:63 | `trimEnd` removes exactly the white space appended after a text that does not end in white space |
| Lexicon.KeywordAt | src/core/tokenizer.ts:148-151 | the matched keyword is one of the alternatives and starts the text; with the word-boundary form it ends at a boundary |
| Lexicon.LineCommentLength | src/core/tokenizer.ts:141-142 | a `#` or `//` comment match ends at a newline, which is included |
| Lexicon.StringScan | src/core/tokenizer.ts:238-247 | the string-literal loop cuts at least one and at most all characters |
| Lexicon.Punctuation | src/core/tokenizer.ts:154-187 | each punctuation rule cuts exactly its symbol text (`::` included); anything else is one Unknown character; `=` is a token only in the core set |
| Lexicon.CoreRule | src/core/tokenizer.ts:134-187 | the core rule on a non-empty text cuts a non-empty prefix; a block comment starts with `/*`, and a string literal starts with its quote |
| Lexicon.LegacyRule | src/extension.ts:138-181 | the legacy rule always cuts a non-empty prefix |
| Lexicon.Lex | src/core/tokenizer.ts:132-188 | on a non-empty text `next()` returns a token with non-empty text that is a prefix of the text |
| Lexicon.TokensAreLossless | src/core/tokenizer.ts:128-203 | the tokens read until the end concatenate to the input, and none is empty |
| Lexicon.DoubleColonFirst | src/core/tokenizer.ts:168-171 | `::` is one ColumnColumn token, never two Column tokens |
| Lexicon.ClassKeywordNeedsBoundary | src/core/tokenizer.ts:148-149 | a ClassKeyword token is returned iff `class`, `struct` or `interface` starts the text and ends at a word boundary, and its text is that keyword |
| Lexicon.PublicKeywordNeedsBoundary | src/core/tokenizer.ts:150-151 | otherwise, a PublicKeyword token is returned iff `public`, `private` or `protected` starts the text at a word boundary, and its text is that keyword |
| Lexicon.WordStartRule | src/core/tokenizer.ts:148-153 | a text starting with a word character is a keyword or the maximal identifier run |
| Lexicon.NonWordStartRule | src/core/tokenizer.ts:148-153 | a text not starting with a word character is never a keyword or an identifier |
| Lexicon.WordIsOneIdent | src/core/tokenizer.ts:152-153 | without a keyword, the whole maximal run of word characters is one Ident token, in both dialects |
| Lexicon.UnknownIsOneChar | src/core/tokenizer.ts:187 | an Unknown token is exactly the first character |
| Lexicon.StringLiteralIsTheQuote | src/core/tokenizer.ts:144-147 | a StringLiteral token is returned iff the text starts with a quote, and it is exactly that one quote character |
| Lexicon.StringScanEscape | src/core/tokenizer.ts:239-240 | the literal loop takes two characters at the escape text |
| Lexicon.StringScanQuote | src/core/tokenizer.ts:241-243 | the literal loop stops right after the quote |
| Lexicon.StringScanOther | src/core/tokenizer.ts:244-246 | the literal loop takes one character otherwise |
| Lexicon.BlockCommentToken | src/core/tokenizer.ts:139-140 | a text starting with `/*` is one Comment token, up to where the nesting scan stops, at least `/*` long |
| Lexicon.BlockScanEnd | src/core/tokenizer.ts:212-228 | the comment scan ends at the end of the text or right after a `*/` |
| Lexicon.BlockScanOpen | src/core/tokenizer.ts:213-215 | `/*` raises the nesting depth and is kept |
| Lexicon.BlockScanClose | src/core/tokenizer.ts:216-221 | `*/` lowers the depth and ends the comment when the depth reaches zero |
| Lexicon.BlockScan | src/core/tokenizer.ts:205-230 | the comment it consumes ends at the end of the text or right after a `*/` |
| Tokenizers.BlockOpenTurn | src/core/tokenizer.ts:213-215 | a turn at `/*` keeps the loop's invariant: the comment read and the text left make up the input, and the scan of the input is the comment read plus the scan of what is left one level deeper |
| Tokenizers.BlockCloseTurn | src/core/tokenizer.ts:216-221 | a turn at `*/` keeps the invariant one level up, and when it closes the outermost level the comment read is exactly the scan |
| Tokenizers.BlockOtherTurn | src/core/tokenizer.ts:222-227 | a turn at any other character keeps the invariant at the same level |
| Lexicon.NestedBlockComment | src/core/tokenizer.ts:205-230 | `/*/**/*/` followed by anything is one Comment token |
| Lexicon.UnterminatedBlockComment | src/core/tokenizer.ts:211-229 | when no `*` is followed by `/` (further `/*` openers allowed), the scan never closes and swallows the rest of the text |
| Lexicon.LineComment | src/core/tokenizer.ts:141-142 | a `#` or `//` line is one Comment token through its newline |
| Lexicon.LineWithoutNewline | src/core/tokenizer.ts:141-142 | a `#` or `//` text without a newline is not a comment |
| Lexicon.LegacyKinds | src/extension.ts:138-181 | the legacy tokenizer never returns Comment, StringLiteral or Eq tokens |
| Lexicon.LegacyKeywordWithoutBoundary | src/extension.ts:144-145 | legacy keywords need no word boundary: `classy` starts with a ClassKeyword `class` |
| Lexicon.LexIsWellFormed | src/core/tokenizer.ts:136-187 | every token's text agrees with its kind: identifiers are word characters, spaces are white space, keywords are in their lists, and symbols are their symbol text |
| Lexicon.Tokens | src/core/tokenizer.ts:132-203 | `next` called until it returns `undefined`: no more tokens than characters, and no token only for the empty text |
| Tokenizers.Tokenizer.constructor | src/core/tokenizer.ts:113-115 | the tokenizer holds the given text |
| Tokenizers.Tokenizer.Clone | src/core/tokenizer.ts:117-119 | a fresh tokenizer with the same text |
| Tokenizers.Tokenizer.Prepend | src/core/tokenizer.ts:124-126 | `text` becomes the value in front of the old text, so pushing back a token read undoes `next` |
| Tokenizers.Tokenizer.Next | src/core/tokenizer.ts:132-188 | returns `undefined` iff the text is empty, leaving it alone; otherwise returns `Lex(Core, text)` and removes exactly its text as a prefix |
| Tokenizers.Tokenizer.ChopText | src/core/tokenizer.ts:192-197 | cuts the first `len` characters, or all of them, and returns them |
| Tokenizers.Tokenizer.Chop | src/core/tokenizer.ts:198-202 | cuts the first `len` characters into a token of the given kind |
| Tokenizers.Tokenizer.TokenizeBlockComment | src/core/tokenizer.ts:205-230 | the nesting loop cuts exactly the Comment token the block-comment scan describes |
| Tokenizers.Tokenizer.TokenizeStringLiteral | src/core/tokenizer.ts:232-249 | cuts the string-literal token the scan describes, which is one character long |
| Tokenizers.Tokenizer.ScanString | src/core/tokenizer.ts:237-247 | the literal loop, for any text containing the quote, cuts what the scan describes |
| Tokenizers.TokenizerStack.constructor | src/core/tokenizer.ts:256-258 | an empty stack over the bottom tokenizer |
| Tokenizers.TokenizerStack.Current | src/core/tokenizer.ts:276-281 | the top of the stack, or the bottom tokenizer when the stack is empty |
| Tokenizers.TokenizerStack.Push | src/core/tokenizer.ts:260-264 | pushes a fresh clone of the current tokenizer: the depth grows by one, the current text is unchanged, and nothing below changes |
| Tokenizers.TokenizerStack.Pop | src/core/tokenizer.ts:266-268 | removes and returns the top; on an empty stack it returns nothing and changes nothing |
| Tokenizers.TokenizerStack.Apply | src/core/tokenizer.ts:270-274 | with two or more entries, removes the one below the top and keeps the top as current; with one it changes nothing; on an empty stack it leaves an empty entry |
| Tokenizers.TokenizerStack.SetCurrent | src/core/tokenizer.ts:283-288 | replaces the top, or the bottom when the stack is empty; afterwards it is the current tokenizer |
| Algorithm.LastIndexWhere | src/tools/algorithm.ts:1-10 | a returned index holds an element satisfying the predicate, and no later element does; no index iff no element does |
| Algorithm.FindLastIndex | src/tools/algorithm.ts:1-10 | the countdown loop returns `LastIndexWhere`: the last satisfying index, or `undefined` iff there is none |
| Algorithm.LastIndexOfAppend | src/tools/algorithm.ts:3-6 | the scan runs from the end, so a hit in an appended part wins over anything before it |
| Grammar.NextGood | src/core/parser.ts:91-103 | `nextGoodToken` returns a non-empty token that is not trivia, or `undefined` only once the text is used up |
| Grammar.NextGoodRelex | src/core/parser.ts:91-103 | pushing back the token read gives a text that lexes to the same token |
| Grammar.TryParse | src/core/parser.ts:415-422 | the result is the sub-parse's; the text is the one on entry when it failed and the one it left when it succeeded |
| Grammar.QualLoop | src/core/parser.ts:326-337 | the name only grows, and the text shrinks when it does |
| Grammar.QualifiedName | src/core/parser.ts:320-342 | a name, when returned, is non-empty and consumed text |
| Grammar.ClassNameP | src/core/parser.ts:348-362 | a class name, when returned, consumed text |
| Grammar.ArgListLoop | src/core/parser.ts:249-265 | a list, when returned, extends the items so far and consumed text |
| Grammar.Base | src/core/parser.ts:283-312 | a base, when returned, consumed text |
| Grammar.BaseListLoop | src/core/parser.ts:249-265 | a list, when returned, extends the items so far and consumed text |
| Grammar.BaseList | src/core/parser.ts:271-276 | a base list, when returned, is non-empty and consumed text |
| Grammar.BracketLoop | src/core/parser.ts:547-562 | content, when returned, consumed text |
| Grammar.BracketContent | src/core/parser.ts:540-563 | content, when returned, consumed text |
| Grammar.SymbolSegment | src/core/parser.ts:453-463 | a symbol segment, when returned, consumed text |
| Grammar.AttributeLikeSegment | src/core/parser.ts:484-496 | an attribute-like segment, when returned, consumed text |
| Grammar.BracketAfterName | src/core/parser.ts:510-521 | only `(`, `<` and `[` after a name open an argument group, each of its own bracket kind |
| Grammar.NamedSegment | src/core/parser.ts:501-534 | a named segment, when returned, consumed text |
| Grammar.SegmentP | src/core/parser.ts:436-448 | a segment, when returned, consumed text; when none is returned the text is as on entry |
| Grammar.NonEmpty | src/core/parser.ts:196-199 | an empty attribute becomes `undefined`, and any other is kept |
| Grammar.NonEmptyList | src/core/parser.ts:411 | an empty method list becomes `undefined`, and any other is kept |
| Grammar.SpacedTextsAppend | src/core/parser.ts:188-193 | appending a segment appends its text and one space |
| Grammar.ClassDeclP | src/core/parser.ts:208-244 | a class declaration, when returned, consumed text |
| Grammar.MethodLoop | src/core/parser.ts:381-399 | a declaration, when returned, consumed text |
| Grammar.MethodDeclP | src/core/parser.ts:378-400 | a declaration, when returned, consumed text |
| Grammar.MethodsLoop | src/core/parser.ts:405-411 | the loop only appends: a result is not empty and extends the declarations already read |
| Grammar.MethodDecls | src/core/parser.ts:405-412 | a result is not empty and starts with the declaration `parseMethodDecl` reads first |
| Grammar.ClassAtKeyword | src/core/parser.ts:113-122 | after a class keyword the loop goes on from a shorter text, or from the text the parsed class declaration left |
| Grammar.ScopeLoopStep | src/core/parser.ts:110-131 | one turn of the token loop: the token's class declaration, if any, and its frame change |
| Grammar.ScopeLoopAfter | src/core/parser.ts:110-130 | a turn as the parser takes it, from the token it read and the text left after the class declaration it tried: that text is shorter, and the loop from it with the new stack and one token less gives the same stack |
| Grammar.ScopeLoop | src/core/parser.ts:108-131 | the scope stack grows by at most one frame for each character of the text |
| Grammar.Frames | src/core/parser.ts:113-130 | a token pushes at most one frame on top or pops the top one; the frames below are kept |
| Grammar.Innermost | src/core/parser.ts:132-140 | a declaration is returned iff some frame carries one, and it is one of the frames |
| Grammar.TextUpToCursor | src/core/parser.ts:105-141 | a class it finds is one of the frames on the stack the loop ends with |
| GrammarProperties.NextGoodIsSuffix | src/core/parser.ts:91-103 | the text left, and the text with the token pushed back, are suffixes of the input |
| GrammarProperties.NextGoodIsWellFormed | src/core/parser.ts:91-103 | the token returned agrees with its kind |
| GrammarProperties.QualLoopTokens | src/core/parser.ts:326-337 | the name is the concatenation of the Ident, `::` and `~` tokens read, no two adjacent tokens share a kind, and the first one differs from the last kind before it |
| GrammarProperties.QualifiedNameShape | src/core/parser.ts:320-342 | a qualified name is a non-empty concatenation of name tokens without two adjacent of one kind, made only of word characters, `:` and `~` |
| GrammarProperties.ArgListBound | src/core/parser.ts:249-265 | a template argument list keeps the items so far and has at most 99 entries |
| GrammarProperties.BaseListBound | src/core/parser.ts:249-265 | a base list keeps the items so far and has at most 99 entries |
| GrammarProperties.BaseListSize | src/core/parser.ts:271-276 | a base list has 1 to 99 entries |
| GrammarProperties.ClassNameArgs | src/core/parser.ts:348-362 | the name is the qualified name; the arguments are `[]` iff the input ends after the name, `undefined` iff the next token is not `<`, and at most 99 otherwise |
| GrammarProperties.BaseAccess | src/core/parser.ts:283-312 | a base starts with an access keyword or an identifier, and its access is present iff the keyword was given, and is then that keyword |
| GrammarProperties.BracketLoopShape | src/core/parser.ts:547-562 | the content read ends with the closing bracket and is the content so far followed by raw text taken from the input in order |
| GrammarProperties.BracketContentShape | src/core/parser.ts:540-563 | the content begins with the opening bracket, ends with the closing one, and is exactly the input text it consumed |
| GrammarProperties.CloseIndexIsFirstZero | src/core/parser.ts:547-562 | from a positive count, the number of tokens read is the first prefix at depth zero and ends with a closing token; when there is none, every prefix leaves the count positive |
| GrammarProperties.BracketLoopCloses | src/core/parser.ts:547-562 | the `owed`/`content` loop reads the raw tokens up to the first one that brings `owed` to zero and returns the content with their text, leaving the text after them; when `owed` never reaches zero it reads to the end and gives `undefined` |
| GrammarProperties.BracketContentCloses | src/core/parser.ts:540-563 | after an opening token, the content is that token and the raw tokens up to the one that closes it, and `undefined` on unclosed input |
| GrammarProperties.BracketToken | src/core/tokenizer.ts:154-165 | an opening or closing token of a bracket kind is exactly that bracket character |
| GrammarProperties.SymbolSegmentFits | src/core/parser.ts:453-463 | a symbol segment is `&` or `*` |
| GrammarProperties.AttributeLikeSegmentFits | src/core/parser.ts:484-496 | an attribute-like segment is a `[` ... `]` group |
| GrammarProperties.NamedSegmentFits | src/core/parser.ts:501-534 | a named segment is a macro-like qualified name, or a name directly followed by a group of the bracket its type says |
| GrammarProperties.SegmentShape | src/core/parser.ts:436-448 | every segment has the shape its type says, and no segment is an operator name |
| GrammarProperties.HeaderLoopShape | src/core/parser.ts:157-174 | the header loop returns at most 51 segments, keeps those so far, every one fits its type, and it stops before a `:` or `{` |
| Grammar.HeaderLoopAfter | src/core/parser.ts:157-173 | a turn of the header loop that parses a segment after a pushed-back token other than `:` or `{` leaves a shorter text and appends that segment |
| Grammar.HeaderLoop | src/core/parser.ts:157-174 | the segment loop only appends: the segments it ends with extend the ones taken before |
| Grammar.NameAndAttrP | src/core/parser.ts:149-201 | the name chosen is never `final` |
| Grammar.NameAmong | src/core/parser.ts:176-184 | the name is the text of one of the segments that is a candidate: MacroLike and not `final` |
| Grammar.NameAt | src/core/parser.ts:185-200 | the chosen segment's text is the name; an attribute needs a segment before it and a post-attribute a segment after it |
| Grammar.LegacyNameAndAttr | src/extension.ts:251-269 | the legacy parser never reports a post-attribute |
| GrammarProperties.NameAmongChoice | src/core/parser.ts:176-200 | no name iff no segment is a macro-like segment other than `final`; otherwise the name is the last such segment, and the attributes are the texts around it, joined by spaces, trimmed, and `undefined` when empty |
| GrammarProperties.NameAndAttrChoice | src/core/parser.ts:149-201 | a parsed header starts with a class keyword, has at most 51 segments before `:` or `{`, and chooses the name and attributes as above |
| GrammarProperties.LegacyNameAndAttrShape | src/extension.ts:251-269 | the legacy header name and attribute are identifiers, and there is no post-attribute |
| GrammarProperties.LegacyTwoWordsName | src/extension.ts:251-269 | on `class`/`struct`, white space, word A, white space, word B (plain words, B ending the word run), the name is B, the attribute A, and the text after B is left |
| GrammarProperties.LegacyOneWordName | src/extension.ts:251-266 | on the keyword and one plain word followed by white space and then punctuation or the end, the name is that word, there is no attribute, and the punctuation token is pushed back |
| GrammarProperties.LegacyNoName | src/extension.ts:251-258 | a keyword followed (after white space) by punctuation or by the end is not a header |
| GrammarProperties.LegacyTwoIdents | src/extension.ts:251-269 | keyword, identifier A, identifier B as the next three non-space tokens give name B and attribute A |
| GrammarProperties.LegacyOneIdent | src/extension.ts:251-266 | keyword and identifier A, then no token or a token that is not an identifier and is pushed back, give name A and no attribute |
| GrammarProperties.LegacyWordToken | src/extension.ts:138-152 | after white space, a plain word ending at a non-word character is the next legacy token, an identifier with exactly that text |
| GrammarProperties.LegacySpaceSkipped | src/extension.ts:241-247 | the legacy `nextGoodToken` skips a leading run of white space |
| GrammarProperties.LegacyClassKeywordToken | src/extension.ts:138-146 | `class` and `struct` are the next legacy token whatever follows, with no word boundary |
| GrammarProperties.LegacyPunctuationToken | src/extension.ts:138-182 | a character that is neither white space nor a word character starts a non-identifier token, and pushing it back restores the text |
| GrammarProperties.ClassDeclShape | src/core/parser.ts:208-244 | name and attribute come from the header; the next token is `:` or `{`; the bases are `undefined` iff it is `{`, and hold 1 to 99 entries otherwise |
| GrammarProperties.ClassNameText | src/core/parser.ts:180-187 | the class name is a name made of word characters, `:` and `~`; in the core parser never `final`; in the legacy parser word characters only |
| GrammarProperties.MethodLoopShape | src/core/parser.ts:381-399 | a declaration extends the segments so far; its name segment is the last function-like one with parentheses, and every segment fits |
| GrammarProperties.MethodDeclShape | src/core/parser.ts:378-400 | the name segment of a parsed declaration is the last function-like segment with parentheses, and every segment fits its type |
| GrammarProperties.MethodLoopBySegments | src/core/parser.ts:381-399 | the loop is two phases: read segments up to the `;` after one of them, then name the declaration after the last function-like segment with parentheses; the rest is the same, no `;` gives None |
| GrammarProperties.MethodDeclWithoutName | src/core/parser.ts:386-394 | reaching the `;` with no function-like segment with parentheses gives None |
| GrammarProperties.MethodDeclWithoutSemi | src/core/parser.ts:381-385 | a segment that does not parse, or a text that ends before any `;`, gives None |
| GrammarProperties.MethodDeclWithoutSegment | src/core/parser.ts:381 | no segment at the start gives None and consumes nothing |
| GrammarProperties.MethodDeclEndsAfterSegment | src/core/parser.ts:383-385 | a text that ends right after a segment gives None with nothing left |
| GrammarProperties.MethodLoopEndsAtSemi | src/core/parser.ts:383-391 | a parsed declaration leaves the text right after a `;` of its input |
| GrammarProperties.MethodDeclNeedsSemi | src/core/parser.ts:386-391 | a declaration is only found in a text that contains a `;` |
| GrammarProperties.SegmentSuffix | src/core/parser.ts:436-448 | `parseSegment` only consumes text: what it leaves is a suffix of its input |
| GrammarProperties.MethodsLoopShape | src/core/parser.ts:405-411 | every declaration collected is well named |
| GrammarProperties.MethodDeclsShape | src/core/parser.ts:405-412 | the declarations, when returned, are a non-empty list of well-named declarations |
| GrammarProperties.InnermostOfClass | src/core/parser.ts:119-121 | just after a class frame is pushed, that class is the innermost |
| GrammarProperties.InnermostOfBlock | src/core/parser.ts:123-125 | an anonymous frame leaves the innermost class as it was |
| GrammarProperties.FramesCloseWhatOpens | src/core/parser.ts:123-130 | a `}` pops the frame a `{` or a class declaration pushed |
| GrammarProperties.FramesOtherTokens | src/core/parser.ts:113-130 | other tokens leave the frames alone |
| GrammarProperties.ScopeLoopWithinLimit | src/core/parser.ts:109-112 | the 200000-token limit only matters for texts longer than that, since each turn consumes text |
| GrammarProperties.ScopeLoopLimit | src/core/parser.ts:109-112 | the loop gives up exactly when the text needs more turns than the limit allows, a turn being one token, or a whole class declaration read from its keyword |
| GrammarProperties.ScopeLoopBeyondTurns | src/core/parser.ts:110-112 | a text that needs more turns than the limit makes the loop give up |
| GrammarProperties.ScopeLoopWithinTurns | src/core/parser.ts:109-131 | a text that needs no more turns than the limit ends with a scope stack |
| GrammarProperties.TextUpToCursorLimit | src/core/parser.ts:105-112 | past 200000 turns no class is found |
| GrammarProperties.ScopeLoopTurn | src/core/parser.ts:110-130 | every turn of the token loop leaves a shorter text, from which the loop with one token less gives the same result |
| GrammarProperties.BlockCommentIsSkipped | src/core/parser.ts:110 | a block comment is one token, so a class keyword or brace inside it changes no frame |
| GrammarProperties.LineCommentIsSkipped | src/core/parser.ts:110 | a `#` or `//` line is one token, so nothing in it changes a frame |
| Parsers.Parser.constructor | src/core/parser.ts:83-85 | the parser reads the given tokenizer |
| Parsers.Parser.NextGoodToken | src/core/parser.ts:91-103 | the loop skips spaces and comments and behaves as `NextGood` |
| Parsers.Parser.ParseQualifiedName | src/core/parser.ts:320-342 | returns and leaves behind what `QualifiedName` describes |
| Parsers.Parser.ParseClassName | src/core/parser.ts:348-362 | returns and leaves behind what `ClassNameP` describes |
| Parsers.Parser.ParseTemplateArgList | src/core/parser.ts:368-373 | the comma-list loop over class names, as `ArgListLoop` |
| Parsers.Parser.ParseBase | src/core/parser.ts:283-312 | as `Base` |
| Parsers.Parser.ParseBaseList | src/core/parser.ts:271-276 | the comma-list loop over bases, as `BaseList` |
| Parsers.Parser.ParseBracketContent | src/core/parser.ts:540-563 | as `BracketContent` |
| Parsers.Parser.ScanBracketContent | src/core/parser.ts:544-562 | the `owed`/`content` loop, as `BracketLoop` |
| Parsers.Parser.ParseSymbolSegment | src/core/parser.ts:453-463 | as `SymbolSegment` |
| Parsers.Parser.ParseAttributeLikeSegment | src/core/parser.ts:484-496 | as `AttributeLikeSegment` |
| Parsers.Parser.ParseNamedSegment | src/core/parser.ts:501-534 | as `NamedSegment` |
| Parsers.Parser.ParseSegment | src/core/parser.ts:436-448 | tries named, attribute-like and symbol segments in turn, each through `tryParse`, as `SegmentP` |
| Parsers.Parser.JoinAroundName | src/core/parser.ts:185-193 | the loop gives the texts before and after the name segment, each followed by one space |
| Parsers.Parser.NameAmongSegments | src/core/parser.ts:176-200 | the part after the header loop (no segments, `findLastIndex`, the attribute loop, `trim` and `undefined` for empty) computes `NameAmong` |
| Parsers.Parser.ParseNameAndAttrInClassDecl | src/core/parser.ts:149-201 | the header loop, `findLastIndex` and the attribute loop, as `NameAndAttrP` |
| Parsers.Parser.ParseClassDecl | src/core/parser.ts:208-244 | as `ClassDeclP` |
| Parsers.Parser.ParseMethodDecl | src/core/parser.ts:378-400 | the segment loop and the countdown for the name, as `MethodDeclP` |
| Parsers.Parser.ParseMethodDecls | src/core/parser.ts:405-412 | the loop collecting declarations, as `MethodDecls` |
| Parsers.Parser.TryParseClassDeclAfter | src/core/parser.ts:114-118 | the keyword pushed back, then a class declaration through `tryParse` |
| Parsers.Parser.ParseTextUpToCursor | src/core/parser.ts:105-141 | the token loop with its scope stack and limit, then the innermost class frame, as `TextUpToCursor` |
| Parsers.Parser.Rescope | src/core/parser.ts:113-130 | one turn's frame change |
| Parsers.Parser.InnermostClass | src/core/parser.ts:132-140 | the countdown over the frames returns the innermost class declaration |
| Declarations.Kept | src/core/definer.ts:77-81 | the kept segments are no more than the segments |
| Declarations.Spaced | src/core/definer.ts:77-81 | when every segment is discarded nothing is written |
| Declarations.Decl | src/core/definer.ts:70-83 | the declaration is what the loop has written after its last turn, which BuildDecl follows turn by turn |
| Declarations.KeptMembers | src/core/definer.ts:77-81 | a segment is kept iff it is one of the segments and its text is not discarded |
| Declarations.SpacedIsKept | src/core/definer.ts:77-81 | the written parts are the kept segments' texts, in their order, each followed by one space |
| Declarations.DeclIsKept | src/core/definer.ts:72-83 | the declaration is the kept segments before the name segment, then `Class::`, then the kept segments from it on; `Class::` is there even when the name segment is discarded |
| Declarations.SpacedEndsWithSpace | src/core/definer.ts:79-80 | once a segment is kept, the written parts end with a space |
| Declarations.DeclEndsWithKept | src/core/definer.ts:72-83 | when the name segment is in range and kept, the untrimmed declaration ends with the space after a kept segment |
| Declarations.BuildDecl | src/core/definer.ts:70-83 | the `index`/`decl` loop writes the declaration `Decl` describes |
| Declarations.WrittenStep | src/core/definer.ts:72-82 | one turn of the loop writes `Class::` at the name segment and the segment's text and a space when it is kept |
| Definers.Definer.constructor | src/core/definer.ts:30-33 | the definer holds the context and configuration |
| Definers.Definer.DefineMethods | src/core/definer.ts:47-67 | the class lookup, the declaration parse and the `allDefs` loop, as `Definitions` |
| Definers.Definer.DefineMethod | src/core/definer.ts:69-86 | the declaration written, then trimmed, as `Definition` |
| Definers.Definition | src/core/definer.ts:69-86 | the definition is trimmed at both ends |
| Definers.AllDefs | src/core/definer.ts:58-65 | the text is empty exactly when there are no declarations |
| Definers.Definitions | src/core/definer.ts:47-67 | the text returned is trimmed |
| Definers.AllDefsStep | src/core/definer.ts:59-65 | one turn of the `allDefs` loop appends, trims the end and appends an empty line |
| Definers.DefinitionLayout | src/core/definer.ts:69-86 | a definition is the trimmed layout of kept segments around `Class::` |
| Definers.DefinitionIsTrimmed | src/core/definer.ts:84 | a definition starts and ends with something other than white space |
| Definers.SingleWithEmptyBody | src/core/definer.ts:58-66 | with an empty body, one declaration gives exactly its definition |
| Definers.SingleAllDefs | src/core/definer.ts:58-65 | with an empty body one declaration gives its definition followed by an empty line |
| Definers.AllDefsAreBlocks | src/core/definer.ts:58-65 | with a body that is not all white space, the output is each definition, then the body without trailing white space, then an empty line |
| Definers.DefaultBodyBlocks | src/core/definer.ts:20-23 | with the default configuration, each definition is followed by `\n{\n}\n\n` |
| Definers.DefaultBodyTrimmed | src/core/definer.ts:21 | the default body has a non-space character and ends in one newline |
| Definers.DefinitionsNone | src/core/definer.ts:47-57 | the result is `undefined` iff no class encloses the cursor or no declaration parses |
| LegacyParsers.LegacyTokenizer.constructor | src/extension.ts:100-103 | the text given and an empty stack |
| LegacyParsers.LegacyTokenizer.Save | src/extension.ts:108-110 | pushes the current text; the text is unchanged |
| LegacyParsers.LegacyTokenizer.Restore | src/extension.ts:116-125 | on an empty stack it throws and changes nothing; otherwise it pops, and reinstates the popped text unless asked to drop it |
| LegacyParsers.LegacyTokenizer.Prepend | src/extension.ts:130-132 | `text` becomes the value before the old text; the stack is unchanged |
| LegacyParsers.LegacyTokenizer.Next | src/extension.ts:138-182 | `undefined` iff the text is empty; otherwise `Lex(Legacy, text)`, its text removed as a prefix; the stack is unchanged |
| LegacyParsers.LegacyTokenizer.SliceToken | src/extension.ts:184-188 | cuts the first `len` characters into a token of the given kind |
| LegacyParsers.LegacyParser.constructor | src/extension.ts:237-239 | the parser reads the given tokenizer |
| LegacyParsers.LegacyParser.NextGoodToken | src/extension.ts:241-247 | skips spaces, as `NextGood(Legacy, ...)`; the stack is unchanged |
| LegacyParsers.LegacyParser.ParseQualifiedName | src/extension.ts:372-394 | as `QualifiedName(Legacy, ...)` |
| LegacyParsers.LegacyParser.ParseClassName | src/extension.ts:400-414 | as `ClassNameP(Legacy, ...)` |
| LegacyParsers.LegacyParser.ParseTemplateArgList | src/extension.ts:418-423 | the comma-list loop from src/extension.ts:307-323, as `ArgListLoop(Legacy, ...)` |
| LegacyParsers.LegacyParser.ParseBase | src/extension.ts:338-367 | as `Base(Legacy, ...)` |
| LegacyParsers.LegacyParser.ParseBaseList | src/extension.ts:327-332 | as `BaseList(Legacy, ...)` |
| LegacyParsers.LegacyParser.ParseBracketContent | src/extension.ts:556-579 | as `BracketContent(Legacy, ...)` |
| LegacyParsers.LegacyParser.ScanBracketContent | src/extension.ts:560-578 | the `owed`/`content` loop, as `BracketLoop(Legacy, ...)` |
| LegacyParsers.LegacyParser.ParseSymbolSegment | src/extension.ts:482-492 | as `SymbolSegment(Legacy, ...)` |
| LegacyParsers.LegacyParser.ParseAttributeLikeSegment | src/extension.ts:498-510 | as `AttributeLikeSegment(Legacy, ...)` |
| LegacyParsers.LegacyParser.ParseNamedSegment | src/extension.ts:517-550 | as `NamedSegment(Legacy, ...)` |
| LegacyParsers.LegacyParser.ParseNameAndAttrInClassDecl | src/extension.ts:251-269 | keyword, then one identifier as the name or two as attribute and name, as `LegacyNameAndAttr` (which word becomes the name: `GrammarProperties.LegacyTwoWordsName`, `LegacyOneWordName`, `LegacyNoName`) |
| LegacyParsers.LegacyParser.TryParseSegment | src/extension.ts:457-464 | save, sub-parse, restore: the stack depth is as before, and the text is reinstated iff the sub-parse failed |
| LegacyParsers.LegacyParser.ParseAlternative | src/extension.ts:466-474 | runs one of the three segment parsers |
| LegacyParsers.LegacyParser.ParseSegment | src/extension.ts:451-476 | tries named, attribute-like and symbol segments in turn, as `SegmentP(Legacy, ...)` |
| LegacyParsers.LegacyParser.ParseClassDecl | src/extension.ts:275-305 | as `ClassDeclP(Legacy, ...)` |
| LegacyParsers.LegacyParser.ParseMethodDecl | src/extension.ts:428-450 | the segment loop and the countdown for the name, as `MethodDeclP(Legacy, ...)` |
| LegacyParsers.DefineMethod | src/extension.ts:582-610 | `undefined` unless both contexts parse; otherwise the declaration written with the four removed words, untrimmed, as `LegacyDefinition` |
| LegacyParsers.LegacyDefinition | src/extension.ts:582-610 | a definition exists exactly when the class context parses as a class declaration and the method context as a method declaration |
| LegacyParsers.LegacyDefinitionLayout | src/extension.ts:593-609 | the kept segments around `Class::`, each followed by one space; `final` is not removed |
| LegacyParsers.LegacyDefinitionIsUntrimmed | src/extension.ts:603-609 | unlike the core definer, the legacy definition ends with the space after the last kept segment |
| LegacyParsers.DeclEndsWithSpace | src/extension.ts:595-605 | the name segment ends in `)`, so it is never removed, and the declaration ends in a space |
| LegacyParsers.NameSegmentIsKept | src/extension.ts:595 | no removed word is a function-like segment with parentheses |
| Release.NextEvenNumber | scripts/trigger_release.py:10-14 | the smallest even number strictly greater than the input |
| Release.NextOddNumber | scripts/trigger_release.py:16-20 | the smallest odd number strictly greater than the input |
| Release.Split | scripts/trigger_release.py:23 | `split('.')` always gives at least one piece |
| Release.SplitJoin | scripts/trigger_release.py:23 | the pieces joined with dots give the text back |
| Release.SplitPiecesHaveNoDot | scripts/trigger_release.py:23 | no piece contains a dot |
| Release.SplitAfterPiece | scripts/trigger_release.py:23 | a dot-free piece and a dot split off at the front |
| Release.SplitOfPiece | scripts/trigger_release.py:23 | a dot-free text is one piece |
| Release.SkipLeadingSpace | scripts/trigger_release.py:24 | `int()` skips leading white space: the result is a suffix, everything cut is white space (ASCII, or the non-ASCII spaces; not U+001C..U+001F), and the result does not start with white space |
| Release.SkipTrailingSpace | scripts/trigger_release.py:24 | `int()` skips trailing white space: the result is a prefix, everything cut is white space, and the result does not end with white space |
| Release.ParseInt | scripts/trigger_release.py:24 | `int()` on a piece: a negative result needs a `-` in the text, and white space alone, the empty text included, is rejected |
| Release.FormatInt | scripts/trigger_release.py:55 | `str()` of an integer: digits, with a leading `-` exactly when the number is negative |
| Release.ParseVersion | scripts/trigger_release.py:23-24 | the unpacking of `split('.')` and the three `int()` calls: a text without a dot never parses |
| Release.FormatVersion | scripts/trigger_release.py:55 | the f-string: splitting it at its dots gives back the three formatted numbers |
| Release.FormatNat | scripts/trigger_release.py:55 | a non-negative number prints as a non-empty run of digits |
| Release.MajorBump | scripts/trigger_release.py:26-34 | major + 1, minor 0, patch 0 for `release` and 1 for `pre-release` |
| Release.MinorBump | scripts/trigger_release.py:37-43 | major kept, minor + 1, patch 0 for `release` and 1 for `pre-release` |
| Release.PatchBump | scripts/trigger_release.py:46-50 | major and minor kept; the patch grows, to the next even number for `release` and the next odd one for `pre-release` |
| Release.Bump | scripts/trigger_release.py:26-54 | a bump that succeeds gives a later version, ordered by major, then minor, then patch number; a failure is an unknown part or channel, never a malformed version |
| Release.BumpParity | scripts/trigger_release.py:26-52 | every successful bump ends in an even patch for `release` and an odd one for `pre-release` |
| Release.BumpErrors | scripts/trigger_release.py:35-36 | an unknown part fails with that part; a known part with an unknown channel fails with that channel; otherwise the bump succeeds |
| Release.ParseFormatInt | scripts/trigger_release.py:24 | `int(str(n)) == n` for every integer |
| Release.SkipSpaceOfDigits | scripts/trigger_release.py:24 | skipping white space leaves a printed number alone |
| Release.FormatNatGroups | scripts/trigger_release.py:24 | printed digits are accepted by `int()` and have the printed value |
| Release.ParseFormatVersion | scripts/trigger_release.py:23-24 | a formatted version parses back to itself |
| Release.NoDot | scripts/trigger_release.py:55 | a printed integer has no dot |
| Release.BumpFormatted | scripts/trigger_release.py:22-55 | bumping a formatted version is the formatted bump of the version |
| Release.BumpVersion | scripts/trigger_release.py:22-55 | `bump_version`: on success the input is a version and the output parses back to a later version |
| Release.MalformedFirst | scripts/trigger_release.py:23 | a version that does not split into exactly three pieces fails before the part or channel is looked at |
| Release.SeparatorIsRejected | scripts/trigger_release.py:24 | `int()` rejects a piece that starts with one of the separators U+001C..U+001F |
| Release.SeparatorVersionFails | scripts/trigger_release.py:23-24 | so `bump_version` fails on `"\x1c1.0.0"` as on any other malformed version |

## Left out

- Character model: text is a sequence of Unicode characters. JavaScript strings are UTF-16, and `\s` and `\w` are written out as character predicates rather than through a regular-expression engine.
- src/code/main.ts, and `activate`, `getSelectionOrLine`, `getMethodDeclContext` and `getClassDeclContext` in src/extension.ts: they read the editor, the selection and the clipboard. The definers take that text as their `EditorContext` parameter or as string arguments.
- codecheck/encoding_check.py and codecheck/setup_hook.py are not part of this model: they run git and read files.
- `main`, `input_str` and `check_run` of scripts/trigger_release.py are not part of this model: they read arguments and stdin, write JSON files and run git.
- The error messages of `ValueError` and of the thrown errors: a failure is a `Failure` value naming its cause, and the legacy `restore` on an empty stack returns a `thrown` flag instead of throwing.
- Release.ParseInt: Python's `int()` also accepts non-ASCII decimal digits; only `0`-`9` are modelled.
- `parseOperatorNameSegment` (src/core/parser.ts:465-479) always returns `undefined` and is never called, so it is not modelled; `SegmentShape` proves that no segment has the type OperatorName.
- The `throw` guards of `tokenizeBlockComment` and `tokenizeStringLiteral` (src/core/tokenizer.ts:207-208, 235-236) become preconditions. `next` only calls these methods on texts that start with `/*` or with the quote.
- `tryParse`'s calls to the missing `push`, `pop` and `drop` are not modelled; see above.
- `parseCommaSeparatedList` takes the item parser as a closure. The model has one loop per item kind: `ArgListLoop` for class names and `BaseListLoop` for bases.
- `TokenizerStack` is not used by any parser in the source, and none in the model uses it.
- Grammar.QualifiedName, Grammar.ClassNameP and the other production functions: their own contracts state only termination facts; what they return is stated by the lemmas in GrammarProperties named in the table.
