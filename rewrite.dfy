/*
 * `TextPosWithCleanStyleTags`: the `TextPos` loop that also writes a cleaned
 * copy of the markup and records each text span a second time, in the
 * coordinates of that cleaned buffer.
 */
module CleanStyle {
  import opened Html
  import opened TextPosition
  import Clean

  /**
   * The code advances the cleaned-buffer cursor by 4 for a `b` start tag
   * although it writes the 3 bytes `<b>`; `Corrected` is the same loop with
   * the advance equal to the bytes written.
   */
  datatype Revision = AsWritten | Corrected

  function OpenBAdvance(rev: Revision): nat {
    if rev == AsWritten then 4 else |OpenB|
  }

  /** The loop state: the cursor `TextPos` keeps plus the cleaned-buffer bookkeeping. */
  datatype Rewrite = Rewrite(cursor: Cursor, adjustedPos: int, adjusted: seq<Span>, out: seq<byte>)

  /**
   * One pass of the loop body, for any token the loop dispatches. The cursor
   * part is `CursorStep` written out again branch by branch, as the code
   * repeats it; `StepCursor` proves the two agree.
   */
  function RewriteStep(w: Rewrite, t: Token, rev: Revision): Result<Rewrite> {
    var c := w.cursor;
    match t
    case Text(raw) =>
      Ok(Rewrite(
        c.(positions := c.positions + [Span(c.prev, c.prev + |raw|)],
           bolded := c.bolded + [c.boldDepth > 0],
           italics := c.italics + [c.italicDepth > 0]),
        w.adjustedPos + |raw|,
        w.adjusted + [Span(w.adjustedPos, w.adjustedPos + |raw|)],
        w.out + raw))
    case End(name, pos) =>
      if name == NameI then
        if c.italicDepth - 1 < 0 then Fail(Unbalanced(Italic))
        else Ok(Rewrite(c.(prev := pos, italicDepth := c.italicDepth - 1), w.adjustedPos + 4, w.adjusted, w.out + CloseI))
      else if name == NameB then
        if c.boldDepth - 1 < 0 then Fail(Unbalanced(Bold))
        else Ok(Rewrite(c.(prev := pos, boldDepth := c.boldDepth - 1), w.adjustedPos + 4, w.adjusted, w.out + CloseB))
      else Ok(w.(cursor := c.(prev := pos)))
    case Start(name, pos) =>
      if name == NameI then
        Ok(Rewrite(c.(prev := pos, italicDepth := c.italicDepth + 1), w.adjustedPos + 3, w.adjusted, w.out + OpenI))
      else if name == NameB then
        Ok(Rewrite(c.(prev := pos, boldDepth := c.boldDepth + 1), w.adjustedPos + OpenBAdvance(rev), w.adjusted, w.out + OpenB))
      else Ok(w.(cursor := c.(prev := pos)))
    case SelfClosing(name, pos) =>
      if name == NameBr then Ok(Rewrite(c.(prev := pos), w.adjustedPos + 1, w.adjusted, w.out + [Space]))
      else Ok(w.(cursor := c.(prev := pos)))
    case Other(pos) => Ok(w.(cursor := c.(prev := pos)))
    case Err(_) => Ok(w)  // the loop stops before dispatching an error token
  }

  function RewriteRun(ts: seq<Token>, rev: Revision): Result<Rewrite> {
    if ts == [] then Ok(Rewrite(Initial, 0, [], []))
    else
      match RewriteRun(ts[..|ts| - 1], rev)
      case Fail(f) => Fail(f)
      case Ok(w) => RewriteStep(w, ts[|ts| - 1], rev)
  }

  /** What `TextPosWithCleanStyleTags` returns: the portions and the cleaned bytes. */
  function CleanedPortionsOf(ts: seq<Token>, rev: Revision): Result<(Portions, seq<byte>)> {
    match RewriteRun(Lexed(ts), rev)
    case Fail(f) => Fail(f)
    case Ok(w) =>
      if LexError(ts) then Fail(Tokenize)
      else
        var c := w.cursor;
        Ok((Portions(c.positions, c.bolded, c.italics, Some(w.adjusted)), w.out))
  }

  lemma {:induction false} RewriteFailureSticks(ts: seq<Token>, k: nat, rev: Revision)
    requires k <= |ts|
    requires RewriteRun(ts[..k], rev).Fail?
    ensures RewriteRun(ts, rev) == RewriteRun(ts[..k], rev)
  {
    if k < |ts| {
      var init := ts[..|ts| - 1];
      assert init[..k] == ts[..k];
      RewriteFailureSticks(init, k, rev);
    } else {
      assert ts[..k] == ts;
    }
  }

  /** A failure after the first `k` tokens, none an error token, is the call's result. */
  lemma RewriteFailureEndsCall(ts: seq<Token>, k: nat, rev: Revision, f: Failure)
    requires k <= |ts|
    requires k <= FirstErr(ts)
    requires RewriteRun(ts[..k], rev) == Fail(f)
    ensures CleanedPortionsOf(ts, rev) == Fail(f)
  {
    assert Lexed(ts)[..k] == ts[..k];
    RewriteFailureSticks(Lexed(ts), k, rev);
  }

  /** Source and cleaned-buffer extraction; the lexer's output is given as `tokens`. */
  method TextPosWithCleanStyleTags(tokens: seq<Token>) returns (r: Result<(Portions, seq<byte>)>)
    ensures r == CleanedPortionsOf(tokens, AsWritten)
  {
    var prev: nat := 0;
    var boldDepth, italicDepth, adjustedPos := 0, 0, 0;
    var inds: seq<Span> := [];
    var adjusted: seq<Span> := [];
    var italics: seq<bool> := [];
    var bolded: seq<bool> := [];
    var outBuff: seq<byte> := [];

    var k := 0;
    label loop:
    while k < |tokens|
      invariant 0 <= k <= |tokens|
      invariant k <= FirstErr(tokens)
      invariant RewriteRun(tokens[..k], AsWritten) ==
        Ok(Rewrite(Cursor(prev, boldDepth, italicDepth, inds, bolded, italics), adjustedPos, adjusted, outBuff))
    {
      var token := tokens[k];
      assert tokens[..k + 1][..k] == tokens[..k];
      ghost var w := Rewrite(Cursor(prev, boldDepth, italicDepth, inds, bolded, italics), adjustedPos, adjusted, outBuff);
      assert RewriteRun(tokens[..k + 1], AsWritten) == RewriteStep(w, token, AsWritten);
      match token {
        case Err(isEOF) =>
          if isEOF {
            break loop;
          } else {
            assert tokens[..k] == Lexed(tokens);
            return Fail(Tokenize);
          }
        case Text(raw) =>
          outBuff := outBuff + raw;
          var l := |raw|;
          inds := inds + [Span(prev, prev + l)];
          var italicised := false;
          if italicDepth > 0 {
            italicised := true;
          }
          italics := italics + [italicised];
          var bold := false;
          if boldDepth > 0 {
            bold := true;
          }
          bolded := bolded + [bold];
          adjusted := adjusted + [Span(adjustedPos, adjustedPos + l)];
          adjustedPos := adjustedPos + l;
          assert RewriteStep(w, token, AsWritten) == Ok(Rewrite(
            Cursor(prev, boldDepth, italicDepth, inds, bolded, italics), adjustedPos, adjusted, outBuff));
        case End(tag, pos) =>
          prev := pos;
          if tag == NameI {
            italicDepth := italicDepth - 1;
            if italicDepth < 0 {
              assert RewriteRun(tokens[..k + 1], AsWritten) == Fail(Unbalanced(Italic));
              RewriteFailureEndsCall(tokens, k + 1, AsWritten, Unbalanced(Italic));
              return Fail(Unbalanced(Italic));
            }
            adjustedPos := adjustedPos + 4;
            outBuff := outBuff + CloseI;
          } else if tag == NameB {
            boldDepth := boldDepth - 1;
            if boldDepth < 0 {
              assert RewriteRun(tokens[..k + 1], AsWritten) == Fail(Unbalanced(Bold));
              RewriteFailureEndsCall(tokens, k + 1, AsWritten, Unbalanced(Bold));
              return Fail(Unbalanced(Bold));
            }
            adjustedPos := adjustedPos + 4;
            outBuff := outBuff + CloseB;
          }
        case Start(tag, pos) =>
          prev := pos;
          if tag == NameI {
            italicDepth := italicDepth + 1;
            adjustedPos := adjustedPos + 3;
            outBuff := outBuff + OpenI;
          } else if tag == NameB {
            boldDepth := boldDepth + 1;
            adjustedPos := adjustedPos + 4;
            outBuff := outBuff + OpenB;
          }
        case SelfClosing(tag, pos) =>
          prev := pos;
          if tag == NameBr {
            outBuff := outBuff + [Space];
            adjustedPos := adjustedPos + 1;
          }
        case Other(pos) =>
          prev := pos;
      }
      assert RewriteRun(tokens[..k + 1], AsWritten) ==
        Ok(Rewrite(Cursor(prev, boldDepth, italicDepth, inds, bolded, italics), adjustedPos, adjusted, outBuff));
      k := k + 1;
    }
    assert tokens[..k] == Lexed(tokens);
    return Ok((Portions(inds, bolded, italics, Some(adjusted)), outBuff));
  }

  /** How far `adjustedPos` runs ahead of the bytes written after `ts`. */
  function Drift(ts: seq<Token>, rev: Revision): nat {
    if rev == AsWritten then Opens(ts, NameB) else 0
  }

  /**
   * The rewriting loop fails exactly when, and with the same failure as,
   * the `TextPos` loop, and otherwise carries the very same cursor.
   */
  lemma {:induction false} RewriteRunCursor(ts: seq<Token>, rev: Revision)
    ensures RewriteRun(ts, rev).Ok? <==> CursorRun(ts).Ok?
    ensures RewriteRun(ts, rev).Fail? ==> RewriteRun(ts, rev).failure == CursorRun(ts).failure
    ensures RewriteRun(ts, rev).Ok? ==> RewriteRun(ts, rev).value.cursor == CursorRun(ts).value
  {
    if ts != [] {
      var init := ts[..|ts| - 1];
      var t := ts[|ts| - 1];
      RewriteRunCursor(init, rev);
      if RewriteRun(init, rev).Ok? {
        var w := RewriteRun(init, rev).value;
        StepCursor(w, t, rev);
        assert RewriteRun(ts, rev) == RewriteStep(w, t, rev);
        assert CursorRun(ts) == CursorStep(w.cursor, t);
      }
    }
  }

  /**
   * The rewriting loop's buffer is the style-preserving cleaned text; it
   * records one adjusted span per text token; and its cursor runs ahead of
   * the buffer by the drift.
   */
  lemma {:induction false} RewriteRunBuffer(ts: seq<Token>, rev: Revision)
    requires RewriteRun(ts, rev).Ok?
    ensures
      var w := RewriteRun(ts, rev).value;
      && w.out == StyledText(ts)
      && |w.adjusted| == TextCount(ts)
      && w.adjustedPos == |w.out| + Drift(ts, rev)
  {
    if ts != [] {
      var init := ts[..|ts| - 1];
      var t := ts[|ts| - 1];
      assert RewriteRun(init, rev).Ok?;
      RewriteRunBuffer(init, rev);
      var w := RewriteRun(init, rev).value;
      StepBuffer(w, t, rev);
      assert RewriteRun(ts, rev) == RewriteStep(w, t, rev);
    }
  }

  /** One step of the rewriting loop does to the cursor what `TextPos` does. */
  lemma StepCursor(w: Rewrite, t: Token, rev: Revision)
    ensures RewriteStep(w, t, rev).Ok? <==> CursorStep(w.cursor, t).Ok?
    ensures RewriteStep(w, t, rev).Fail? ==> RewriteStep(w, t, rev).failure == CursorStep(w.cursor, t).failure
    ensures RewriteStep(w, t, rev).Ok? ==> RewriteStep(w, t, rev).value.cursor == CursorStep(w.cursor, t).value
  {
  }

  /** One step of the rewriting loop writes `Emit(t)` and moves its cursor by that plus the drift. */
  lemma StepBuffer(w: Rewrite, t: Token, rev: Revision)
    requires RewriteStep(w, t, rev).Ok?
    ensures
      var w' := RewriteStep(w, t, rev).value;
      && w'.out == w.out + Emit(t)
      && w'.adjusted == w.adjusted + (if t.Text? then [Span(w.adjustedPos, w.adjustedPos + |t.raw|)] else [])
      && w'.adjustedPos == w.adjustedPos + |Emit(t)| + (if IsStart(t, NameB) && rev == AsWritten then 1 else 0)
  {
    assert NameB[0] != NameI[0];
    assert w.out + [] == w.out;
  }

  /**
   * The adjusted span of the text token at index `j` starts where the
   * buffer stood before that token, plus the drift so far.
   */
  lemma {:induction false} AdjustedAt(ts: seq<Token>, j: nat, rev: Revision)
    requires RewriteRun(ts, rev).Ok?
    requires j < |ts| && ts[j].Text?
    ensures
      var w := RewriteRun(ts, rev).value;
      var r := TextCount(ts[..j]);
      var o := |StyledText(ts[..j])| + Drift(ts[..j], rev);
      && r < |w.adjusted|
      && w.adjusted[r] == Span(o, o + |ts[j].raw|)
  {
    var init := ts[..|ts| - 1];
    var t := ts[|ts| - 1];
    assert RewriteRun(init, rev).Ok?;
    RewriteRunBuffer(init, rev);
    var w0 := RewriteRun(init, rev).value;
    StepBuffer(w0, t, rev);
    assert RewriteRun(ts, rev) == RewriteStep(w0, t, rev);
    if j == |ts| - 1 {
      assert ts[..j] == init;
    } else {
      assert ts[..j] == init[..j];
      AdjustedAt(init, j, rev);
    }
  }

  /** Each adjusted span is exactly as long as the source span it pairs with. */
  lemma {:induction false} SpanLengthsAgree(ts: seq<Token>, rev: Revision)
    requires RewriteRun(ts, rev).Ok?
    ensures
      var w := RewriteRun(ts, rev).value;
      && |w.adjusted| == |w.cursor.positions|
      && forall r :: 0 <= r < |w.adjusted| ==>
           w.adjusted[r].end - w.adjusted[r].start == w.cursor.positions[r].end - w.cursor.positions[r].start
  {
    RewriteRunCursor(ts, rev);
    RewriteRunBuffer(ts, rev);
    CursorRunFacts(ts);
    if ts != [] {
      var init := ts[..|ts| - 1];
      var t := ts[|ts| - 1];
      assert RewriteRun(init, rev).Ok?;
      SpanLengthsAgree(init, rev);
      var w0 := RewriteRun(init, rev).value;
      StepBuffer(w0, t, rev);
      StepCursor(w0, t, rev);
      assert RewriteRun(ts, rev) == RewriteStep(w0, t, rev);
      if !t.Text? {
        NonTextKeepsSpans(w0.cursor, t);
      }
    }
  }

  /**
   * With the corrected advance every adjusted span indexes, in the cleaned
   * buffer, exactly the raw bytes of its text token.
   */
  lemma CorrectedSpansIndexOutput(ts: seq<Token>, j: nat)
    requires RewriteRun(ts, Corrected).Ok?
    requires j < |ts| && ts[j].Text?
    ensures
      var w := RewriteRun(ts, Corrected).value;
      var r := TextCount(ts[..j]);
      && r < |w.adjusted|
      && var a := w.adjusted[r];
      && 0 <= a.start <= a.end <= |w.out|
      && w.out[a.start..a.end] == ts[j].raw
  {
    var w := RewriteRun(ts, Corrected).value;
    var r := TextCount(ts[..j]);
    var o := |StyledText(ts[..j])|;
    assert r < |w.adjusted| && w.adjusted[r] == Span(o, o + |ts[j].raw|) by {
      AdjustedAt(ts, j, Corrected);
    }
    assert w.out == StyledText(ts) by {
      RewriteRunBuffer(ts, Corrected);
    }
    RawInStyledText(ts, j);
  }

  /**
   * As written, the same holds for a text token only while no `b` start tag
   * has come before it.
   */
  lemma AlignedBeforeFirstOpenB(ts: seq<Token>, j: nat)
    requires RewriteRun(ts, AsWritten).Ok?
    requires j < |ts| && ts[j].Text? && Opens(ts[..j], NameB) == 0
    ensures
      var w := RewriteRun(ts, AsWritten).value;
      var r := TextCount(ts[..j]);
      && r < |w.adjusted|
      && var a := w.adjusted[r];
      && 0 <= a.start <= a.end <= |w.out|
      && w.out[a.start..a.end] == ts[j].raw
  {
    var w := RewriteRun(ts, AsWritten).value;
    var r := TextCount(ts[..j]);
    var o := |StyledText(ts[..j])|;
    assert r < |w.adjusted| && w.adjusted[r] == Span(o, o + |ts[j].raw|) by {
      AdjustedAt(ts, j, AsWritten);
    }
    assert w.out == StyledText(ts) by {
      RewriteRunBuffer(ts, AsWritten);
    }
    RawInStyledText(ts, j);
  }

  /**
   * With the corrected advance, and a lexer that keeps its side of the
   * bargain, each cleaned-buffer span holds the same bytes as the source
   * span paired with it.
   */
  lemma CorrectedMatchesSource(src: seq<byte>, ts: seq<Token>, j: nat)
    requires Consistent(src, ts)
    requires RewriteRun(ts, Corrected).Ok?
    requires j < |ts| && ts[j].Text?
    ensures
      var w := RewriteRun(ts, Corrected).value;
      var r := TextCount(ts[..j]);
      && r < |w.adjusted| && r < |w.cursor.positions|
      && var a := w.adjusted[r];
      && var p := w.cursor.positions[r];
      && 0 <= a.start <= a.end <= |w.out|
      && 0 <= p.start <= p.end <= |src|
      && w.out[a.start..a.end] == src[p.start..p.end]
  {
    RewriteRunCursor(ts, Corrected);
    SourceSpanAt(src, ts, j);
    CorrectedSpansIndexOutput(ts, j);
  }

  /**
   * `<b>x`: the source span of `x` is `[3, 4)` but, as written, its cleaned
   * span is `[4, 5)`, past the end of the 4-byte cleaned buffer `<b>x`.
   * With the corrected advance it is `[3, 4)`, which holds `x`.
   */
  lemma OpenBoldDrift()
    ensures
      var ts := [Start(NameB, 3), Text([0x78]), Err(true)];
      var asWritten := CleanedPortionsOf(ts, AsWritten);
      var corrected := CleanedPortionsOf(ts, Corrected);
      && asWritten == Ok((Portions([Span(3, 4)], [true], [false], Some([Span(4, 5)])), OpenB + [0x78]))
      && 5 > |asWritten.value.1|
      && corrected == Ok((Portions([Span(3, 4)], [true], [false], Some([Span(3, 4)])), OpenB + [0x78]))
      && corrected.value.1[3..4] == [0x78]
  {
    var ts := [Start(NameB, 3), Text([0x78]), Err(true)];
    assert ts[1..][1..] == [Err(true)];
    assert FirstErr([Err(true)]) == 0;
    assert FirstErr(ts[1..]) == 1;
    assert FirstErr(ts) == 2;
    var lexed := [Start(NameB, 3), Text([0x78])];
    assert Lexed(ts) == lexed;
    assert !LexError(ts);
    assert lexed[..1] == [Start(NameB, 3)];
    assert lexed[..1][..0] == [];
    var c1 := Initial.(prev := 3, boldDepth := 1);
    var c2 := c1.(positions := [Span(3, 4)], bolded := [true], italics := [false]);
    forall rev: Revision
      ensures RewriteRun(lexed, rev) ==
        Ok(Rewrite(c2, OpenBAdvance(rev) + 1, [Span(OpenBAdvance(rev), OpenBAdvance(rev) + 1)], OpenB + [0x78]))
    {
      assert NameB[0] != NameI[0];
      assert RewriteRun(lexed[..1][..0], rev) == Ok(Rewrite(Initial, 0, [], []));
      assert [] + OpenB == OpenB;
      assert RewriteRun(lexed[..1], rev) == Ok(Rewrite(c1, OpenBAdvance(rev), [], OpenB));
      assert lexed[..|lexed| - 1] == lexed[..1];
      var adv := OpenBAdvance(rev);
      assert [] + [Span(3, 4)] == [Span(3, 4)] && [] + [true] == [true] && [] + [false] == [false];
      assert [] + [Span(adv, adv + 1)] == [Span(adv, adv + 1)];
    }
  }

  /**
   * `TextPos` and `TextPosWithCleanStyleTags` succeed and fail together,
   * with the same failure, and agree on spans and flags.
   */
  lemma TextPosAgrees(ts: seq<Token>, rev: Revision)
    ensures PortionsOf(ts).Ok? <==> CleanedPortionsOf(ts, rev).Ok?
    ensures PortionsOf(ts).Fail? ==> PortionsOf(ts).failure == CleanedPortionsOf(ts, rev).failure
    ensures PortionsOf(ts).Ok? ==>
      var p := PortionsOf(ts).value;
      var q := CleanedPortionsOf(ts, rev).value.0;
      p.positions == q.positions && p.bolded == q.bolded && p.italicised == q.italicised
  {
    RewriteRunCursor(Lexed(ts), rev);
  }

  /**
   * Whenever `TextPosWithCleanStyleTags` succeeds, its cleaned buffer is
   * what `CleanTextWithStyleTags` outputs for the same tokens, and the
   * portions hold four aligned lists, one entry per text token.
   */
  lemma CleanedOutputAgrees(ts: seq<Token>, rev: Revision)
    requires CleanedPortionsOf(ts, rev).Ok?
    ensures Clean.CleanTextWithStyleTagsOf(ts) == Ok(CleanedPortionsOf(ts, rev).value.1)
    ensures
      var p := CleanedPortionsOf(ts, rev).value.0;
      && p.adjusted.Some?
      && |p.positions| == |p.bolded| == |p.italicised| == |p.adjusted.value| == TextCount(Lexed(ts))
  {
    RewriteRunCursor(Lexed(ts), rev);
    RewriteRunBuffer(Lexed(ts), rev);
    CursorRunFacts(Lexed(ts));
  }

  /**
   * Whenever `TextPos` succeeds on tokens the lexer produced from `src`,
   * `CleanText` outputs exactly the source bytes under the recorded spans,
   * in order.
   */
  lemma CleanTextAgrees(src: seq<byte>, ts: seq<Token>)
    requires Consistent(src, Lexed(ts))
    requires PortionsOf(ts).Ok?
    ensures Within(src, PortionsOf(ts).value.positions)
    ensures Clean.CleanTextOf(ts) == Ok(Covered(src, PortionsOf(ts).value.positions))
  {
    SpansCoverText(src, Lexed(ts));
  }
}
