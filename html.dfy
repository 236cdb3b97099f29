/*
 * The token stream that the HTML lexer hands to the extraction loops, the
 * failures those loops report, and counting functions over token prefixes.
 *
 * The lexer itself is not modelled: a call's whole conversation with it is
 * the sequence of tokens it returns from successive `Next` calls.
 */
module Html {

  newtype byte = x: int | 0 <= x < 256

  /**
   * One token as the extraction loops see it. `pos` is the byte reader's
   * position at the moment the loop handles the token; text tokens carry
   * their raw bytes and no position (the loops never ask for one).
   * `Other` is every kind the loops send to their `default` branch
   * (comments, doctypes).
   */
  datatype Token =
    | Text(raw: seq<byte>)
    | Start(name: seq<byte>, pos: nat)
    | End(name: seq<byte>, pos: nat)
    | SelfClosing(name: seq<byte>, pos: nat)
    | Other(pos: nat)
    | Err(isEOF: bool)

  datatype Style = Bold | Italic

  datatype Failure =
    | Unbalanced(style: Style)  // an end tag met while its depth is already 0
    | Tokenize                  // the lexer reported an error other than EOF

  datatype Result<T> = Ok(value: T) | Fail(failure: Failure)

  // Tag names compared against, and the markup written to cleaned output.
  const NameB: seq<byte> := [0x62]          // b
  const NameI: seq<byte> := [0x69]          // i
  const NameBr: seq<byte> := [0x62, 0x72]   // br
  const OpenB: seq<byte> := [0x3C, 0x62, 0x3E]          // <b>
  const OpenI: seq<byte> := [0x3C, 0x69, 0x3E]          // <i>
  const CloseB: seq<byte> := [0x3C, 0x2F, 0x62, 0x3E]   // </b>
  const CloseI: seq<byte> := [0x3C, 0x2F, 0x69, 0x3E]   // </i>
  const Space: byte := 0x20

  /**
   * Where every loop stops: the index of the first error token, or the end
   * of the stream when there is none.
   */
  function FirstErr(ts: seq<Token>): (n: nat)
    ensures n <= |ts|
    ensures forall j :: 0 <= j < n ==> !ts[j].Err?
    ensures n < |ts| ==> ts[n].Err?
  {
    if ts == [] || ts[0].Err? then 0 else 1 + FirstErr(ts[1..])
  }

  /** The tokens a loop dispatches before it stops. */
  function Lexed(ts: seq<Token>): seq<Token> {
    ts[..FirstErr(ts)]
  }

  /** The loop stops on an error token that is not EOF. */
  predicate LexError(ts: seq<Token>) {
    FirstErr(ts) < |ts| && !ts[FirstErr(ts)].isEOF
  }

  predicate IsStart(t: Token, name: seq<byte>) {
    t.Start? && t.name == name
  }

  predicate IsEnd(t: Token, name: seq<byte>) {
    t.End? && t.name == name
  }

  /** Number of text tokens in `ts`. */
  function TextCount(ts: seq<Token>): nat {
    if ts == [] then 0
    else TextCount(ts[..|ts| - 1]) + (if ts[|ts| - 1].Text? then 1 else 0)
  }

  /** Number of start tags named `name` in `ts`. */
  function Opens(ts: seq<Token>, name: seq<byte>): nat {
    if ts == [] then 0
    else Opens(ts[..|ts| - 1], name) + (if IsStart(ts[|ts| - 1], name) then 1 else 0)
  }

  /** Number of end tags named `name` in `ts`. */
  function Closes(ts: seq<Token>, name: seq<byte>): nat {
    if ts == [] then 0
    else Closes(ts[..|ts| - 1], name) + (if IsEnd(ts[|ts| - 1], name) then 1 else 0)
  }

  /** Nesting depth of `name` after `ts`: start tags minus end tags. */
  function Depth(ts: seq<Token>, name: seq<byte>): int {
    Opens(ts, name) - Closes(ts, name)
  }

  /** Neither depth goes below 0 after any prefix of `ts`. */
  predicate Balanced(ts: seq<Token>) {
    forall j :: 0 <= j <= |ts| ==> Depth(ts[..j], NameB) >= 0 && Depth(ts[..j], NameI) >= 0
  }

  /**
   * Token `j` is an end tag `name` that takes that depth below 0 while every
   * earlier prefix is still balanced: the first underflow of the stream.
   */
  predicate UnderflowAt(ts: seq<Token>, j: int, name: seq<byte>) {
    0 <= j < |ts| && Balanced(ts[..j]) && IsEnd(ts[j], name) && Depth(ts[..j + 1], name) < 0
  }

  /**
   * The source offset at which the next text span starts: the reader
   * position seen at the last non-text token, 0 before any.
   */
  function Prev(ts: seq<Token>): nat {
    if ts == [] then 0
    else
      var t := ts[|ts| - 1];
      if t.Text? || t.Err? then Prev(ts[..|ts| - 1]) else t.pos
  }

  /** What the style-preserving outputs write for one token. */
  function Emit(t: Token): seq<byte> {
    match t
    case Text(raw) => raw
    case Start(name, _) =>
      if name == NameI then OpenI else if name == NameB then OpenB else []
    case End(name, _) =>
      if name == NameI then CloseI else if name == NameB then CloseB else []
    case SelfClosing(name, _) => if name == NameBr then [Space] else []
    case Other(_) => []
    case Err(_) => []
  }

  /** Concatenated raw bytes of the text tokens of `ts`. */
  function PlainText(ts: seq<Token>): seq<byte> {
    if ts == [] then []
    else
      var t := ts[|ts| - 1];
      PlainText(ts[..|ts| - 1]) + (if t.Text? then t.raw else [])
  }

  /** Concatenation of `Emit` over `ts`. */
  function StyledText(ts: seq<Token>): seq<byte> {
    if ts == [] then [] else StyledText(ts[..|ts| - 1]) + Emit(ts[|ts| - 1])
  }

  /** What a prefix of the stream writes is a prefix of what the whole stream writes. */
  lemma {:induction false} StyledTextPrefix(ts: seq<Token>, k: nat)
    requires k <= |ts|
    ensures StyledText(ts[..k]) <= StyledText(ts)
  {
    if k < |ts| {
      var init := ts[..|ts| - 1];
      assert ts[..k] == init[..k];
      StyledTextPrefix(init, k);
    } else {
      assert ts[..k] == ts;
    }
  }

  /**
   * The raw bytes of the text token at index `j` sit in the style-preserving
   * output right after what the tokens before it wrote.
   */
  lemma RawInStyledText(ts: seq<Token>, j: nat)
    requires j < |ts| && ts[j].Text?
    ensures
      var o := |StyledText(ts[..j])|;
      && o + |ts[j].raw| <= |StyledText(ts)|
      && StyledText(ts)[o..o + |ts[j].raw|] == ts[j].raw
  {
    StyledTextPrefix(ts, j + 1);
    assert ts[..j + 1][..j] == ts[..j];
    assert StyledText(ts[..j + 1]) == StyledText(ts[..j]) + ts[j].raw;
  }
}
