/*
 * `TextPos`: one pass over the token stream that records, for every text
 * token, its half-open interval in the source bytes and whether it lies
 * inside bold and inside italic markup.
 */
module TextPosition {
  import opened Html

  /** A half-open byte interval `[start, end)`. */
  datatype Span = Span(start: int, end: int)

  datatype Option<T> = None | Some(value: T)

  /**
   * The result of an extraction: four lists aligned by index. `adjusted`
   * is `None` (a nil slice) when no cleaned buffer was built.
   */
  datatype Portions = Portions(
    positions: seq<Span>,
    bolded: seq<bool>,
    italicised: seq<bool>,
    adjusted: Option<seq<Span>>)

  /** What the extraction loop carries from one token to the next. */
  datatype Cursor = Cursor(
    prev: nat,
    boldDepth: int,
    italicDepth: int,
    positions: seq<Span>,
    bolded: seq<bool>,
    italics: seq<bool>)

  const Initial := Cursor(0, 0, 0, [], [], [])

  /** One pass of the loop body, for any token the loop dispatches. */
  function CursorStep(c: Cursor, t: Token): Result<Cursor> {
    match t
    case Text(raw) =>
      Ok(c.(positions := c.positions + [Span(c.prev, c.prev + |raw|)],
            bolded := c.bolded + [c.boldDepth > 0],
            italics := c.italics + [c.italicDepth > 0]))
    case End(name, pos) =>
      if name == NameI then
        if c.italicDepth - 1 < 0 then Fail(Unbalanced(Italic))
        else Ok(c.(prev := pos, italicDepth := c.italicDepth - 1))
      else if name == NameB then
        if c.boldDepth - 1 < 0 then Fail(Unbalanced(Bold))
        else Ok(c.(prev := pos, boldDepth := c.boldDepth - 1))
      else Ok(c.(prev := pos))
    case Start(name, pos) =>
      if name == NameI then Ok(c.(prev := pos, italicDepth := c.italicDepth + 1))
      else if name == NameB then Ok(c.(prev := pos, boldDepth := c.boldDepth + 1))
      else Ok(c.(prev := pos))
    case SelfClosing(_, pos) => Ok(c.(prev := pos))
    case Other(pos) => Ok(c.(prev := pos))
    case Err(_) => Ok(c)  // the loop stops before dispatching an error token
  }

  /** The loop state after dispatching every token of `ts`; the first failure sticks. */
  function CursorRun(ts: seq<Token>): Result<Cursor> {
    if ts == [] then Ok(Initial)
    else
      match CursorRun(ts[..|ts| - 1])
      case Fail(f) => Fail(f)
      case Ok(c) => CursorStep(c, ts[|ts| - 1])
  }

  /** What `TextPos` returns for the token stream `ts`. */
  function PortionsOf(ts: seq<Token>): Result<Portions> {
    match CursorRun(Lexed(ts))
    case Fail(f) => Fail(f)
    case Ok(c) =>
      if LexError(ts) then Fail(Tokenize)
      else Ok(Portions(c.positions, c.bolded, c.italics, None))
  }

  /** Once the fold has failed, dispatching more tokens keeps that failure. */
  lemma {:induction false} FailureSticks(ts: seq<Token>, k: nat)
    requires k <= |ts|
    requires CursorRun(ts[..k]).Fail?
    ensures CursorRun(ts) == CursorRun(ts[..k])
  {
    if k < |ts| {
      var init := ts[..|ts| - 1];
      assert init[..k] == ts[..k];
      FailureSticks(init, k);
    } else {
      assert ts[..k] == ts;
    }
  }

  /** A failure after the first `k` tokens, none an error token, is the call's result. */
  lemma FailureEndsCall(ts: seq<Token>, k: nat, f: Failure)
    requires k <= FirstErr(ts)
    requires CursorRun(ts[..k]) == Fail(f)
    ensures PortionsOf(ts) == Fail(f)
  {
    assert Lexed(ts)[..k] == ts[..k];
    FailureSticks(Lexed(ts), k);
  }

  /** Source-offset extraction; the lexer's output is given as `tokens`. */
  method TextPos(tokens: seq<Token>) returns (r: Result<Portions>)
    ensures r == PortionsOf(tokens)
  {
    var prev: nat := 0;
    var boldDepth, italicDepth := 0, 0;
    var inds: seq<Span> := [];
    var italics: seq<bool> := [];
    var bolded: seq<bool> := [];

    var k := 0;
    label loop:
    while k < |tokens|
      invariant 0 <= k <= |tokens|
      invariant k <= FirstErr(tokens)
      invariant CursorRun(tokens[..k]) == Ok(Cursor(prev, boldDepth, italicDepth, inds, bolded, italics))
    {
      var token := tokens[k];
      assert tokens[..k + 1][..k] == tokens[..k];
      assert CursorRun(tokens[..k + 1]) == CursorStep(CursorRun(tokens[..k]).value, token);
      match token {
        case Err(isEOF) =>
          if isEOF {
            break loop;
          } else {
            assert tokens[..k] == Lexed(tokens);
            return Fail(Tokenize);
          }
        case Text(raw) =>
          inds := inds + [Span(prev, prev + |raw|)];
          var italicised := false;
          if italicDepth > 0 {
            italicised := true;
          }
          italics := italics + [italicised];
          var bold := false;
          if boldDepth > 0 {
            bold := true;
          }
          bolded := bolded + [bold];
        case End(tag, pos) =>
          prev := pos;
          if tag == NameI {
            italicDepth := italicDepth - 1;
            if italicDepth < 0 {
              assert CursorRun(tokens[..k + 1]) == Fail(Unbalanced(Italic));
              FailureEndsCall(tokens, k + 1, Unbalanced(Italic));
              return Fail(Unbalanced(Italic));
            }
          } else if tag == NameB {
            boldDepth := boldDepth - 1;
            if boldDepth < 0 {
              assert CursorRun(tokens[..k + 1]) == Fail(Unbalanced(Bold));
              FailureEndsCall(tokens, k + 1, Unbalanced(Bold));
              return Fail(Unbalanced(Bold));
            }
          }
        case Start(tag, pos) =>
          prev := pos;
          if tag == NameI {
            italicDepth := italicDepth + 1;
          } else if tag == NameB {
            boldDepth := boldDepth + 1;
          }
        case SelfClosing(_, pos) =>
          prev := pos;
        case Other(pos) =>
          prev := pos;
      }
      assert CursorRun(tokens[..k + 1]) == Ok(Cursor(prev, boldDepth, italicDepth, inds, bolded, italics));
      k := k + 1;
    }
    assert tokens[..k] == Lexed(tokens);
    return Ok(Portions(inds, bolded, italics, None));
  }

  /** Taking one more token keeps the earlier prefixes balanced or not. */
  lemma BalancedSnoc(ts: seq<Token>)
    requires ts != []
    ensures Balanced(ts) <==>
      Balanced(ts[..|ts| - 1]) && Depth(ts, NameB) >= 0 && Depth(ts, NameI) >= 0
  {
    var init := ts[..|ts| - 1];
    forall j | 0 <= j <= |init|
      ensures ts[..j] == init[..j]
    {
    }
    assert ts[..|ts|] == ts;
  }

  /**
   * The loop succeeds exactly when no end tag ever takes a depth below 0,
   * fails only for that reason, and otherwise holds one entry per text token
   * in each list, the depths as start tags minus end tags, and `prev` as the
   * reader position at the last non-text token.
   */
  lemma {:induction false} CursorRunFacts(ts: seq<Token>)
    ensures CursorRun(ts).Ok? <==> Balanced(ts)
    ensures CursorRun(ts).Fail? ==> CursorRun(ts).failure.Unbalanced?
    ensures CursorRun(ts).Ok? ==>
      var c := CursorRun(ts).value;
      && c.prev == Prev(ts)
      && c.boldDepth == Depth(ts, NameB)
      && c.italicDepth == Depth(ts, NameI)
      && |c.positions| == |c.bolded| == |c.italics| == TextCount(ts)
  {
    assert NameB[0] != NameI[0];
    if ts == [] {
      assert ts[..0] == [];
    } else {
      var init := ts[..|ts| - 1];
      CursorRunFacts(init);
      BalancedSnoc(ts);
    }
  }

  /** An underflow inside the first `|ts| - 1` tokens is one of the whole stream, and back. */
  lemma UnderflowSnoc(ts: seq<Token>, j: int, name: seq<byte>)
    requires ts != [] && 0 <= j < |ts| - 1
    ensures UnderflowAt(ts, j, name) <==> UnderflowAt(ts[..|ts| - 1], j, name)
  {
    var init := ts[..|ts| - 1];
    assert ts[..j] == init[..j];
    assert ts[..j + 1] == init[..j + 1];
  }

  /**
   * The fold fails on a `b` end tag exactly when some `b` end tag is the
   * first to take a depth below 0, and likewise for `i`: the failure names
   * the style of the first underflow.
   */
  lemma {:induction false} FailureStyle(ts: seq<Token>)
    ensures CursorRun(ts) == Fail(Unbalanced(Bold)) <==> exists j :: UnderflowAt(ts, j, NameB)
    ensures CursorRun(ts) == Fail(Unbalanced(Italic)) <==> exists j :: UnderflowAt(ts, j, NameI)
  {
    if ts != [] {
      var init := ts[..|ts| - 1];
      var t := ts[|ts| - 1];
      var last := |ts| - 1;
      FailureStyle(init);
      CursorRunFacts(init);
      assert ts[..last] == init;
      assert ts[..last + 1] == ts;
      forall j, name | 0 <= j < last
        ensures UnderflowAt(ts, j, name) <==> UnderflowAt(init, j, name)
      {
        UnderflowSnoc(ts, j, name);
      }
      if CursorRun(init).Fail? {
        assert CursorRun(ts) == CursorRun(init);
        assert !UnderflowAt(ts, last, NameB) && !UnderflowAt(ts, last, NameI);
      } else {
        assert forall j :: 0 <= j < last ==> !UnderflowAt(init, j, NameB) && !UnderflowAt(init, j, NameI);
        var c := CursorRun(init).value;
        assert CursorRun(ts) == CursorStep(c, t);
        assert NameB[0] != NameI[0];
        assert Depth(ts, NameB) == Depth(init, NameB) - (if IsEnd(t, NameB) then 1 else 0) + (if IsStart(t, NameB) then 1 else 0);
        assert Depth(ts, NameI) == Depth(init, NameI) - (if IsEnd(t, NameI) then 1 else 0) + (if IsStart(t, NameI) then 1 else 0);
        assert CursorRun(ts) == Fail(Unbalanced(Bold)) <==> UnderflowAt(ts, last, NameB);
        assert CursorRun(ts) == Fail(Unbalanced(Italic)) <==> UnderflowAt(ts, last, NameI);
      }
    }
  }

  /**
   * The entry recorded for the text token at index `j` sits at its rank
   * among text tokens; its span starts at the position seen at the last
   * non-text token before it and is as long as its raw bytes; its flags say
   * whether the bold and italic depths before it are above 0.
   */
  lemma {:induction false} SpanAt(ts: seq<Token>, j: nat)
    requires CursorRun(ts).Ok?
    requires j < |ts| && ts[j].Text?
    ensures
      var c := CursorRun(ts).value;
      var r := TextCount(ts[..j]);
      && r < |c.positions| && r < |c.bolded| && r < |c.italics|
      && c.positions[r] == Span(Prev(ts[..j]), Prev(ts[..j]) + |ts[j].raw|)
      && c.bolded[r] == (Depth(ts[..j], NameB) > 0)
      && c.italics[r] == (Depth(ts[..j], NameI) > 0)
  {
    var init := ts[..|ts| - 1];
    assert CursorRun(init).Ok?;
    CursorRunFacts(init);
    if j == |ts| - 1 {
      assert ts[..j] == init;
    } else {
      assert ts[..j] == init[..j];
      SpanAt(init, j);
    }
  }

  /**
   * Text tokens do not move `prev`: two text tokens in a row get spans
   * with the same start, so their source intervals overlap.
   */
  lemma AdjacentTextsShareStart(ts: seq<Token>, j: nat)
    requires CursorRun(ts).Ok?
    requires j + 1 < |ts| && ts[j].Text? && ts[j + 1].Text?
    ensures
      var c := CursorRun(ts).value;
      var r := TextCount(ts[..j]);
      && r + 1 < |c.positions|
      && c.positions[r + 1].start == c.positions[r].start
  {
    SpanAt(ts, j);
    SpanAt(ts, j + 1);
    assert ts[..j + 1][..j] == ts[..j];
  }

  /**
   * `TextPos` fails with an unbalanced-markup error exactly when some prefix
   * of the dispatched tokens has more end tags than start tags for `b` or
   * `i`; otherwise with a tokenize error exactly when the lexer stopped on a
   * non-EOF error. On success the three lists are aligned, one entry per
   * text token, and no adjusted list is returned.
   */
  lemma PortionsOfFacts(ts: seq<Token>)
    ensures PortionsOf(ts).Ok? <==> Balanced(Lexed(ts)) && !LexError(ts)
    ensures PortionsOf(ts) == Fail(Unbalanced(Bold)) <==> exists j :: UnderflowAt(Lexed(ts), j, NameB)
    ensures PortionsOf(ts) == Fail(Unbalanced(Italic)) <==> exists j :: UnderflowAt(Lexed(ts), j, NameI)
    ensures PortionsOf(ts) == Fail(Tokenize) <==> Balanced(Lexed(ts)) && LexError(ts)
    ensures PortionsOf(ts).Fail? && !Balanced(Lexed(ts)) ==> PortionsOf(ts).failure.Unbalanced?
    ensures PortionsOf(ts).Ok? ==>
      var p := PortionsOf(ts).value;
      && |p.positions| == |p.bolded| == |p.italicised| == TextCount(Lexed(ts))
      && p.adjusted == None
  {
    CursorRunFacts(Lexed(ts));
    FailureStyle(Lexed(ts));
  }

  /** Every span lies inside `src`. */
  predicate Within(src: seq<byte>, spans: seq<Span>) {
    forall k :: 0 <= k < |spans| ==> 0 <= spans[k].start <= spans[k].end <= |src|
  }

  /** The bytes of `src` that `spans` cover, in order. */
  function Covered(src: seq<byte>, spans: seq<Span>): seq<byte>
    requires Within(src, spans)
  {
    if spans == [] then []
    else
      var s := spans[|spans| - 1];
      Covered(src, spans[..|spans| - 1]) + src[s.start..s.end]
  }

  /** Text token `t`, with its span starting at `prev`, is the bytes of `src` there. */
  predicate TextAt(src: seq<byte>, prev: nat, t: Token) {
    t.Text? ==> prev + |t.raw| <= |src| && src[prev..prev + |t.raw|] == t.raw
  }

  /**
   * The lexer's side of the bargain: each text token is the bytes of `src`
   * that start at the reader position seen at the last tag before it.
   * Because text never moves that position, two adjacent text tokens must
   * both start there, so this rules out adjacent text tokens whose bytes
   * differ (unless one is a prefix of the other): exactly the case of
   * `AdjacentTextsShareStart`, about which the lemmas resting on this
   * assumption say nothing.
   */
  predicate Consistent(src: seq<byte>, ts: seq<Token>) {
    ts == [] || (Consistent(src, ts[..|ts| - 1]) && TextAt(src, Prev(ts[..|ts| - 1]), ts[|ts| - 1]))
  }

  /** The bargain, read off at the text token with index `j`. */
  lemma {:induction false} ConsistentAt(src: seq<byte>, ts: seq<Token>, j: nat)
    requires Consistent(src, ts) && j < |ts|
    ensures TextAt(src, Prev(ts[..j]), ts[j])
  {
    var init := ts[..|ts| - 1];
    if j == |ts| - 1 {
      assert ts[..j] == init;
    } else {
      assert ts[..j] == init[..j];
      ConsistentAt(src, init, j);
    }
  }

  /**
   * When the lexer keeps its side of the bargain, the span recorded for the
   * text token at index `j` indexes exactly that token's bytes in `src`.
   */
  lemma SourceSpanAt(src: seq<byte>, ts: seq<Token>, j: nat)
    requires Consistent(src, ts)
    requires CursorRun(ts).Ok?
    requires j < |ts| && ts[j].Text?
    ensures
      var c := CursorRun(ts).value;
      var r := TextCount(ts[..j]);
      && r < |c.positions|
      && var p := c.positions[r];
      && 0 <= p.start <= p.end <= |src|
      && src[p.start..p.end] == ts[j].raw
  {
    SpanAt(ts, j);
    ConsistentAt(src, ts, j);
  }

  /**
   * When the lexer keeps its side of the bargain, the source bytes under
   * the recorded spans, concatenated in order, are the text content of the
   * dispatched tokens, which is what `CleanText` outputs.
   */
  lemma {:induction false} SpansCoverText(src: seq<byte>, ts: seq<Token>)
    requires Consistent(src, ts)
    requires CursorRun(ts).Ok?
    ensures Within(src, CursorRun(ts).value.positions)
    ensures Covered(src, CursorRun(ts).value.positions) == PlainText(ts)
  {
    if ts != [] {
      var init := ts[..|ts| - 1];
      var t := ts[|ts| - 1];
      assert CursorRun(init).Ok?;
      SpansCoverText(src, init);
      CursorRunFacts(init);
      var c0 := CursorRun(init).value;
      assert CursorRun(ts) == CursorStep(c0, t);
      var ps := CursorRun(ts).value.positions;
      if t.Text? {
        var sp := Span(c0.prev, c0.prev + |t.raw|);
        assert ps == c0.positions + [sp];
        assert TextAt(src, Prev(init), t);
        assert ps[..|ps| - 1] == c0.positions;
        assert PlainText(ts) == PlainText(init) + t.raw;
      } else {
        NonTextKeepsSpans(c0, t);
        assert ps == c0.positions;
        assert PlainText(ts) == PlainText(init);
      }
    }
  }

  /** Only text tokens add spans. */
  lemma NonTextKeepsSpans(c: Cursor, t: Token)
    requires !t.Text? && CursorStep(c, t).Ok?
    ensures CursorStep(c, t).value.positions == c.positions
  {
  }
}
