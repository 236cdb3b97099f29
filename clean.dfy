/*
 * `CleanText` and `CleanTextWithStyleTags`: the dispatch loop with no
 * position bookkeeping and no depth counters, writing only an output buffer.
 */
module Clean {
  import opened Html

  /** What `CleanText` returns: the text content, unless the lexer failed. */
  function CleanTextOf(ts: seq<Token>): (r: Result<seq<byte>>)
    ensures r.Ok? <==> !LexError(ts)
    ensures r.Fail? ==> r.failure == Tokenize
  {
    if LexError(ts) then Fail(Tokenize) else Ok(PlainText(Lexed(ts)))
  }

  /**
   * What `CleanTextWithStyleTags` returns: text plus canonical `b`/`i`
   * markup and a space per `br`. Unbalanced tags never make it fail.
   */
  function CleanTextWithStyleTagsOf(ts: seq<Token>): (r: Result<seq<byte>>)
    ensures r.Ok? <==> !LexError(ts)
    ensures r.Fail? ==> r.failure == Tokenize
  {
    if LexError(ts) then Fail(Tokenize) else Ok(StyledText(Lexed(ts)))
  }

  /** Text-only cleaner; the lexer's output is given as `tokens`. */
  method CleanText(tokens: seq<Token>) returns (r: Result<seq<byte>>)
    ensures r == CleanTextOf(tokens)
  {
    var outBuff: seq<byte> := [];
    var k := 0;
    label loop:
    while k < |tokens|
      invariant 0 <= k <= |tokens|
      invariant k <= FirstErr(tokens)
      invariant outBuff == PlainText(tokens[..k])
    {
      assert tokens[..k + 1][..k] == tokens[..k];
      match tokens[k] {
        case Err(isEOF) =>
          if isEOF {
            break loop;
          } else {
            return Fail(Tokenize);
          }
        case Text(raw) =>
          outBuff := outBuff + raw;
        case _ =>
      }
      k := k + 1;
    }
    assert tokens[..k] == Lexed(tokens);
    return Ok(outBuff);
  }

  /** Style-preserving cleaner; the lexer's output is given as `tokens`. */
  method CleanTextWithStyleTags(tokens: seq<Token>) returns (r: Result<seq<byte>>)
    ensures r == CleanTextWithStyleTagsOf(tokens)
  {
    var outBuff: seq<byte> := [];
    var k := 0;
    label loop:
    while k < |tokens|
      invariant 0 <= k <= |tokens|
      invariant k <= FirstErr(tokens)
      invariant outBuff == StyledText(tokens[..k])
    {
      assert tokens[..k + 1][..k] == tokens[..k];
      match tokens[k] {
        case Err(isEOF) =>
          if isEOF {
            break loop;
          } else {
            return Fail(Tokenize);
          }
        case Text(raw) =>
          outBuff := outBuff + raw;
        case End(tag, _) =>
          if tag == NameI {
            outBuff := outBuff + CloseI;
          } else if tag == NameB {
            outBuff := outBuff + CloseB;
          }
        case Start(tag, _) =>
          if tag == NameI {
            outBuff := outBuff + OpenI;
          } else if tag == NameB {
            outBuff := outBuff + OpenB;
          }
        case SelfClosing(tag, _) =>
          if tag == NameBr {
            outBuff := outBuff + [Space];
          }
        case Other(_) =>
      }
      k := k + 1;
    }
    assert tokens[..k] == Lexed(tokens);
    return Ok(outBuff);
  }

  /** Number of self-closing `br` tags in `ts`. */
  function Breaks(ts: seq<Token>): nat {
    if ts == [] then 0
    else
      var t := ts[|ts| - 1];
      Breaks(ts[..|ts| - 1]) + (if t.SelfClosing? && t.name == NameBr then 1 else 0)
  }

  /**
   * The style-preserving output is the text content plus 3 bytes per `b`
   * or `i` start tag, 4 per `b` or `i` end tag and 1 per `br`.
   */
  lemma {:induction false} StyledLength(ts: seq<Token>)
    ensures |StyledText(ts)| ==
      |PlainText(ts)| + 3 * (Opens(ts, NameB) + Opens(ts, NameI))
      + 4 * (Closes(ts, NameB) + Closes(ts, NameI)) + Breaks(ts)
  {
    assert NameB[0] != NameI[0];
    if ts != [] {
      StyledLength(ts[..|ts| - 1]);
    }
  }
}
