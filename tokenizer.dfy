/**
 * The tokenizer of src/core/tokenizer.ts: an object whose one field, `text`, loses a prefix
 * with every token, and a stack of independent snapshots of such objects.
 */
module Tokenizers {
  import opened Options
  import opened Text
  import opened Lexicon

  class Tokenizer {
    var text: string

    constructor(text: string)
      ensures this.text == text
    {
      this.text := text;
    }

    /** A new tokenizer over the same text: advancing one does not move the other. */
    method Clone() returns (t: Tokenizer)
      ensures fresh(t) && t.text == text
    {
      t := new Tokenizer(text);
    }

    /** Push-back: puts `value` in front of the remaining text. */
    method Prepend(value: string)
      modifies this
      ensures text == value + old(text)
    {
      text := value + text;
    }

    /**
     * The next token, or None on an empty text. The token is `Lex(Core, text)` and exactly
     * its text is removed from the front, so `Prepend(t.text)` restores the old text.
     */
    method Next() returns (r: Option<Token>)
      modifies this
      ensures old(text) == [] <==> r.None?
      ensures r.None? ==> text == old(text)
      ensures r.Some? ==> r.value == Lex(Core, old(text)) && old(text) == r.value.text + text
      ensures r.Some? ==> text == old(text)[|r.value.text|..]
    {
      if |text| == 0 {
        return None;
      }
      var t: Token;
      match CoreRule(text) {
        case ChopRule(n, k) =>
          t := Chop(n, k);
        case BlockCommentRule =>
          t := TokenizeBlockComment();
        case StringLiteralRule(q) =>
          t := TokenizeStringLiteral(q);
      }
      r := Some(t);
    }

    /** `chop(len)`: removes and returns the first `len` characters, or all of them if there are fewer. */
    method ChopText(len: nat) returns (s: string)
      modifies this
      ensures len <= |old(text)| ==> s == old(text)[..len]
      ensures len > |old(text)| ==> s == old(text)
      ensures old(text) == s + text
    {
      var n := if len <= |text| then len else |text|;
      s := text[..n];
      text := text[n..];
    }

    /** `chop(len, tokenType)`: as ChopText, wrapping the removed text in a token. */
    method Chop(len: nat, kind: TokenType) returns (t: Token)
      modifies this
      ensures len <= |old(text)| ==> t == Token(old(text)[..len], kind)
      ensures len > |old(text)| ==> t == Token(old(text), kind)
      ensures old(text) == t.text + text
    {
      var s := ChopText(len);
      t := Token(s, kind);
    }

    /**
     * The nested block-comment scanner. The source throws when the text does not start
     * with an opening marker; `next` only calls it when it does.
     */
    method TokenizeBlockComment() returns (t: Token)
      requires StartsWith(text, "/*")
      modifies this
      ensures t == Token(old(text)[..BlockScan(old(text), 0)], Comment)
      ensures old(text) == t.text + text
    {
      ghost var s := text;
      var comment := "";
      var layer := 0;
      while true
        invariant comment + text == s
        invariant BlockScan(s, 0) == |comment| + BlockScan(text, layer)
        decreases |text|
      {
        ghost var before, layer0 := text, layer;
        if StartsWith(text, "/*") {
          layer := layer + 1;
          var c := ChopText(2);
          BlockOpenTurn(s, comment, before, c, text, layer0, layer);
          comment := comment + c;
        } else if StartsWith(text, "*/") {
          layer := layer - 1;
          var c := ChopText(2);
          BlockCloseTurn(s, comment, before, c, text, layer0, layer);
          comment := comment + c;
          if layer == 0 {
            break;
          }
        } else if |text| == 0 {
          assert BlockScan(text, layer) == 0;
          break;
        } else {
          var c := ChopText(1);
          BlockOtherTurn(s, comment, before, c, text, layer);
          comment := comment + c;
        }
      }
      PrefixIsRead(s, comment, text, BlockScan(s, 0));
      t := Token(comment, Comment);
    }

    /**
     * The string-literal scanner. The source throws when the text does not start with
     * the quote; `next` only calls it when it does.
     */
    method TokenizeStringLiteral(q: QuoteType) returns (t: Token)
      requires text != [] && text[0] == QuoteChar(q)
      modifies this
      ensures t == Token(old(text)[..StringScan(old(text), q)], StringLiteral)
      ensures |t.text| == 1
      ensures old(text) == t.text + text
    {
      t := ScanString(q);
      StringLiteralIsTheQuote(old(text));
    }

    /**
     * The `while (true)` loop of `tokenizeStringLiteral`: skips the escaped quote,
     * stops after the first quote character.
     */
    method ScanString(q: QuoteType) returns (t: Token)
      requires QuoteChar(q) in text
      modifies this
      ensures t == Token(old(text)[..StringScan(old(text), q)], StringLiteral)
      ensures old(text) == t.text + text
    {
      ghost var s := text;
      var str := "";
      while true
        invariant str + text == s
        invariant QuoteChar(q) in text
        invariant StringScan(s, q) == |str| + StringScan(text, q)
        decreases FirstIndex(text, QuoteChar(q))
      {
        ghost var before := text;
        if StartsWith(text, BackslashQuote(q)) {
          var c := ChopText(2);
          StringScanEscape(before, q);
          AppendChopped(str, c, text, before);
          str := str + c;
        } else if StartsWith(text, [QuoteChar(q)]) {
          var c := ChopText(1);
          StringScanQuote(before, q);
          AppendChopped(str, c, text, before);
          str := str + c;
          assert |str| == StringScan(s, q);
          break;
        } else {
          var c := ChopText(1);
          StringScanOther(before, q);
          AppendChopped(str, c, text, before);
          str := str + c;
        }
      }
      PrefixOfConcat(str, text);
      assert s[..StringScan(s, q)] == str;
      t := Token(str, StringLiteral);
    }
  }

  /**
   * A stack of tokenizer snapshots over a bottom tokenizer. An entry can be `undefined`
   * (`apply` on an empty stack pushes one), which is modelled as `null`.
   */
  class TokenizerStack {
    var stack: seq<Tokenizer?>
    var bottom: Tokenizer

    constructor(tokenizer: Tokenizer)
      ensures bottom == tokenizer && stack == []
    {
      bottom := tokenizer;
      stack := [];
    }

    /** The top entry, or `bottom` when the stack is empty or its top is `undefined`. */
    function Current(): (t: Tokenizer)
      reads this
      ensures |stack| == 0 ==> t == bottom
      ensures |stack| > 0 && stack[|stack| - 1] != null ==> t == stack[|stack| - 1]
      ensures |stack| > 0 && stack[|stack| - 1] == null ==> t == bottom
    {
      if |stack| == 0 || stack[|stack| - 1] == null then bottom else stack[|stack| - 1]
    }

    /** Stacks a fresh clone of the current tokenizer, which becomes the new current one. */
    method Push()
      modifies this
      ensures |stack| == |old(stack)| + 1 && stack[..|old(stack)|] == old(stack)
      ensures bottom == old(bottom)
      ensures fresh(Current()) && Current() == stack[|stack| - 1]
      ensures Current().text == old(Current().text)
    {
      var t := Current();
      var c := t.Clone();
      stack := stack + [c];
    }

    /** Removes and returns the top entry; `undefined` (null) on an empty stack. */
    method Pop() returns (r: Tokenizer?)
      modifies this
      ensures bottom == old(bottom)
      ensures |old(stack)| == 0 ==> r == null && stack == old(stack)
      ensures |old(stack)| > 0 ==> r == old(stack)[|old(stack)| - 1] && stack == old(stack)[..|old(stack)| - 1]
    {
      if |stack| == 0 {
        r := null;
      } else {
        r := stack[|stack| - 1];
        stack := stack[..|stack| - 1];
      }
    }

    /**
     * Pops the top, pops again and pushes the first entry back: with two or more entries
     * the one below the top is dropped and the current tokenizer stays the same.
     */
    method Apply()
      modifies this
      ensures bottom == old(bottom)
      ensures |old(stack)| == 0 ==> stack == [null]
      ensures |old(stack)| == 1 ==> stack == old(stack)
      ensures |old(stack)| >= 2 ==> stack == old(stack)[..|old(stack)| - 2] + [old(stack)[|old(stack)| - 1]]
      ensures |old(stack)| >= 1 ==> Current() == old(Current())
    {
      var cur := Pop();
      var _ := Pop();
      stack := stack + [cur];
    }

    /** Replaces the top entry, or `bottom` when the stack is empty. */
    method SetCurrent(value: Tokenizer)
      modifies this
      ensures |old(stack)| == 0 ==> bottom == value && stack == old(stack)
      ensures |old(stack)| > 0 ==> bottom == old(bottom) && stack == old(stack)[..|old(stack)| - 1] + [value]
      ensures Current() == value
    {
      if |stack| == 0 {
        bottom := value;
      } else {
        stack := stack[..|stack| - 1] + [value];
      }
    }
  }

  lemma AppendChopped(acc: string, c: string, rest: string, before: string)
    requires before == c + rest
    ensures (acc + c) + rest == acc + before && |acc + c| == |acc| + |c|
  {
  }

  /**
   * A turn of the block-comment loop at an opening marker keeps the loop's invariant; `c`
   * and `rest` are what chopping two characters off `before` gives.
   */
  lemma BlockOpenTurn(s: string, acc: string, before: string, c: string, rest: string, layer: int, layer': int)
    requires layer' == layer + 1
    requires acc + before == s && BlockScan(s, 0) == |acc| + BlockScan(before, layer)
    requires StartsWith(before, "/*") && (2 <= |before| ==> c == before[..2]) && before == c + rest
    ensures (acc + c) + rest == s && |rest| < |before|
    ensures BlockScan(s, 0) == |acc + c| + BlockScan(rest, layer')
  {
    PairIsPrefix(before, '/', '*');
    assert rest == before[2..];
    Assoc(acc, c, rest);
  }

  /**
   * A turn at a closing marker keeps the invariant; when it closes the outermost level the
   * comment read so far is the whole scan.
   */
  lemma BlockCloseTurn(s: string, acc: string, before: string, c: string, rest: string, layer: int, layer': int)
    requires layer' == layer - 1
    requires acc + before == s && BlockScan(s, 0) == |acc| + BlockScan(before, layer)
    requires StartsWith(before, "*/") && (2 <= |before| ==> c == before[..2]) && before == c + rest
    ensures (acc + c) + rest == s && |rest| < |before|
    ensures layer' == 0 ==> BlockScan(s, 0) == |acc + c|
    ensures layer' != 0 ==> BlockScan(s, 0) == |acc + c| + BlockScan(rest, layer')
  {
    PairIsPrefix(before, '*', '/');
    assert rest == before[2..];
    Assoc(acc, c, rest);
  }

  /** A turn at any other character keeps the invariant. */
  lemma BlockOtherTurn(s: string, acc: string, before: string, c: string, rest: string, layer: int)
    requires acc + before == s && BlockScan(s, 0) == |acc| + BlockScan(before, layer)
    requires !StartsWith(before, "/*") && !StartsWith(before, "*/") && before != []
    requires (1 <= |before| ==> c == before[..1]) && before == c + rest
    ensures (acc + c) + rest == s && |rest| < |before|
    ensures BlockScan(s, 0) == |acc + c| + BlockScan(rest, layer)
  {
    PairIsPrefix(before, '/', '*');
    PairIsPrefix(before, '*', '/');
    assert rest == before[1..];
    Assoc(acc, c, rest);
  }

  lemma PrefixIsRead(s: string, acc: string, rest: string, n: int)
    requires acc + rest == s && n == |acc|
    ensures 0 <= n <= |s| && s[..n] == acc
  {
    PrefixOfConcat(acc, rest);
  }

  lemma PrefixOfConcat(a: string, b: string)
    ensures (a + b)[..|a|] == a
  {
  }
}
