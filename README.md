# clean_html: text spans, style flags and cleaned markup

This project models the core of the Go package `clean_html`, which is one file, `html-tokenizer.go`. The package walks the token stream of an HTML fragment and does one of four things:

- `TextPos` records, for every text token, its byte interval in the source. It also records whether the token sits inside `<b>` and inside `<i>`.
- `TextPosWithCleanStyleTags` does the same. It also writes a cleaned copy of the markup: text, canonical `<b>`/`<i>`/`</b>`/`</i>`, and a space for every `<br/>`. For each text token it records a second interval, in the coordinates of that cleaned buffer.
- `CleanText` outputs the text content only.
- `CleanTextWithStyleTags` outputs the cleaned markup and never checks nesting.

The two position-tracking calls feed the lexer through a one-byte-at-a-time `reader`. This keeps the reader's position equal to the number of bytes the lexer has consumed. That position becomes the start of the next text span whenever a tag is handled.

Model layout:

- `html.dfy` (module `Html`): the token stream, the failures, and folds over token prefixes.
  - Fold functions: `TextCount`, `Opens`, `Closes`, `Depth`, `Prev`, `PlainText`, `StyledText`.
  - The lexer is not modelled. A call's whole conversation with it is the `seq<Token>` that successive `Next` calls return. Each non-text token carries the reader position at the moment the loop handles it.
  - Every loop stops at the first error token, or at the end of the sequence, which stands for EOF.
- `reader.dfy` (module `ByteReader`): the `reader` struct as a class with `Read`, `Pos` and a constructor.
- `textpos.dfy` (module `TextPosition`): the `TextPos` loop as a method.
  - It is proved equal to `PortionsOf`, a left fold of `CursorStep` over the dispatched tokens.
  - The lemmas tie that fold to the token counts.
- `clean.dfy` (module `Clean`): the two cleaners as methods, proved equal to `CleanTextOf` and `CleanTextWithStyleTagsOf`.
- `rewrite.dfy` (module `CleanStyle`): the `TextPosWithCleanStyleTags` loop as a method.
  - The method is proved equal to `CleanedPortionsOf(tokens, AsWritten)`.
  - The lemmas relate this loop to the other three calls.

The rewriting fold takes a `Revision` parameter. `AsWritten` advances the cleaned-buffer cursor by 4 after a `b` start tag, as the code does. `Corrected` advances it by the 3 bytes actually written. The method models the code as written; see "Findings".

Two behaviours of the code are kept as they are:

- Line 198 advances `adjustedPos` by 4 while line 199 writes the 3 bytes `<b>` (html-tokenizer.go:196-199), so cleaned-buffer spans drift by one byte per `<b>`; see "Findings".
- A text token does not move the source cursor `prev` (html-tokenizer.go:85), so two adjacent text tokens get the same span start. `TextPosition.AdjacentTextsShareStart` states it.

## Model

| member | source | states |
|---|---|---|
| ByteReader.Reader.constructor | html-tokenizer.go:48-54 | a new reader holds the given bytes, sits at offset 0 and has handed out nothing |
| ByteReader.Reader.Pos | html-tokenizer.go:33-35 | the position never exceeds the length of the text and equals the number of bytes handed out so far |
| ByteReader.Reader.Read | html-tokenizer.go:37-46 | EOF exactly when every byte is consumed, with nothing changed; otherwise copies exactly the next source byte into `b[0]`, leaves the rest of `b` alone, returns 1 and advances the position by one, so the bytes handed out stay a prefix of the text |
| Html.FirstErr | html-tokenizer.go:74-83 | the loops stop at the first error token: no token before it is an error, and the one at it is |
| TextPosition.TextPos | html-tokenizer.go:63-128 | the loop returns exactly the left fold `PortionsOf`: a non-EOF error token fails with a tokenize error, an end `b`/`i` at depth 0 fails, and EOF ends with the three lists and no adjusted list |
| TextPosition.CursorRunFacts | html-tokenizer.go:84-120 | the fold succeeds iff no prefix has more `b` or `i` end tags than start tags; on success `prev` is the position seen at the last non-text token, each depth is start tags minus end tags of that name, and the three lists have one entry per text token |
| TextPosition.SpanAt | html-tokenizer.go:84-95 | the entry for the text token at index j sits at its rank among text tokens; its span is `[Prev, Prev+len(raw))` and its flags are exactly bold depth > 0 and italic depth > 0 at that token |
| TextPosition.AdjacentTextsShareStart | html-tokenizer.go:85 | two adjacent text tokens get spans with the same start, because text never moves `prev` |
| TextPosition.FailureStyle | html-tokenizer.go:99-108 | the fold fails with the bold error exactly when some `b` end tag is the first to take a depth below 0, and with the italic error exactly when some `i` end tag is |
| TextPosition.PortionsOfFacts | html-tokenizer.go:78-127 | `TextPos` succeeds iff the dispatched tokens are balanced and the lexer did not fail; it fails with the bold (italic) underflow error iff the first underflow is at a `b` (`i`) end tag; with a tokenize error iff balanced and the lexer failed; on success the lists are aligned, one entry per text token, and `Adjusted` is absent |
| TextPosition.SourceSpanAt | html-tokenizer.go:85 | for a lexer whose text tokens are the source bytes at the last position seen, the span recorded for a text token indexes exactly its bytes in the source |
| TextPosition.SpansCoverText | html-tokenizer.go:84-95 | for such a lexer every span lies inside the source, and the source bytes under the spans, concatenated in order, are the text content of the tokens |
| Clean.CleanTextOf | html-tokenizer.go:222-243 | `CleanText` fails iff the lexer stops on a non-EOF error, and then with a tokenize error |
| Clean.CleanText | html-tokenizer.go:222-243 | the loop returns exactly `CleanTextOf`: the concatenated raw bytes of the text tokens, with every tag dropped |
| Clean.CleanTextWithStyleTagsOf | html-tokenizer.go:245-284 | `CleanTextWithStyleTags` fails iff the lexer stops on a non-EOF error, and never for unbalanced tags |
| Clean.CleanTextWithStyleTags | html-tokenizer.go:245-284 | the loop returns exactly `CleanTextWithStyleTagsOf`: raw text, `<i>`/`<b>` per start tag, `</i>`/`</b>` per end tag, a space per self-closing `br`, nothing for other tags |
| Clean.StyledLength | html-tokenizer.go:260-280 | the style-preserving output is the text content plus 3 bytes per `b`/`i` start tag, 4 per `b`/`i` end tag and 1 per `br` |
| Html.RawInStyledText | html-tokenizer.go:260-261 | the raw bytes of each text token sit in the style-preserving output right after what the tokens before it wrote |
| CleanStyle.TextPosWithCleanStyleTags | html-tokenizer.go:130-219 | the loop returns exactly the rewriting fold with the as-written `<b>` advance, including both unbalanced-tag failures and the tokenize failure |
| CleanStyle.RewriteRunCursor | html-tokenizer.go:154-210 | the rewriting loop succeeds or fails exactly when `TextPos` does, with the same failure, and keeps the same source cursor, depths, spans and flags |
| CleanStyle.RewriteRunBuffer | html-tokenizer.go:155-206 | on success the cleaned buffer is the style-preserving output of the tokens, there is one adjusted span per text token, and `adjustedPos` equals the buffer length plus the number of `b` start tags (as written) or exactly the buffer length (corrected) |
| CleanStyle.AdjustedAt | html-tokenizer.go:168-169 | the adjusted span of a text token starts at the buffer length before it plus the drift so far and is as long as the token |
| CleanStyle.SpanLengthsAgree | html-tokenizer.go:154-169 | adjusted and source lists have equal length and each adjusted span is as long as its source span |
| CleanStyle.AlignedBeforeFirstOpenB | html-tokenizer.go:155-199 | as written, a text token's adjusted span indexes its own bytes in the cleaned buffer while no `b` start tag precedes it |
| CleanStyle.OpenBoldDrift | html-tokenizer.go:196-199 | for `<b>x` the as-written adjusted span is `[4,5)`, past the end of the 4-byte buffer, while the corrected one is `[3,4)` and holds `x` |
| CleanStyle.CorrectedSpansIndexOutput | html-tokenizer.go:155-206 | with the corrected advance every adjusted span indexes exactly its text token's bytes in the cleaned buffer |
| CleanStyle.CorrectedMatchesSource | html-tokenizer.go:154-210 | with the corrected advance, and a lexer consistent with the source, the cleaned-buffer span and the source span of each text token hold the same bytes |
| CleanStyle.TextPosAgrees | html-tokenizer.go:63-219 | `TextPos` and `TextPosWithCleanStyleTags` succeed on the same inputs, fail with the same failure, and return the same spans and flags |
| CleanStyle.CleanedOutputAgrees | html-tokenizer.go:213-218 | whenever `TextPosWithCleanStyleTags` succeeds its cleaned buffer is what `CleanTextWithStyleTags` outputs, and its four lists are aligned, one entry per text token |
| CleanStyle.CleanTextAgrees | html-tokenizer.go:222-243 | whenever `TextPos` succeeds on tokens lexed from the source, `CleanText` outputs exactly the source bytes under its spans, in order |

## Left out

- The HTML lexer `golang.org/x/net/html` (`NewTokenizer`, `Next`, `Raw`, `TagName`, `Err`) is not part of this model. Its tokens, and the reader position observed at each non-text token, are inputs. How it chunks its `Read` calls is outside the model.
- TextPosition.Consistent, the lexer assumption behind `SourceSpanAt`, `SpansCoverText`, `CleanTextAgrees` and `CorrectedMatchesSource`, places every text token at the position seen at the last tag. It therefore rules out two adjacent text tokens whose bytes differ (unless one is a prefix of the other), which is the case `AdjacentTextsShareStart` describes; those lemmas say nothing about such streams.
- The link between the `Reader` class and the positions carried by tokens is not modelled, because the lexer sits between them.
- `bytes.NewReader` in the cleaners is a library reader feeding the same abstract token stream.
- Error message text from `fmt.Errorf` is abstracted to the `Failure` datatype (`Unbalanced(style)` or `Tokenize`).
- The `prevRune` field is written but never read, so it is left out.
- `bytes.Buffer` is modelled as a `seq<byte>` that is appended to.
- Go `int`/`int64` overflow is not modelled: positions and counters are unbounded integers.
- The difference between Go's `nil` and an empty slice is modelled only for `Adjusted`, as an `Option`. Failed calls return no `Portions` value at all.
- ByteReader.Reader.Read: a Go call with an empty `b` before EOF panics; the model instead requires a non-empty `b` when a byte remains.
- Idempotence of `CleanTextWithStyleTags` on its own output is not stated: it depends on how the lexer re-tokenizes the cleaned bytes.

## Findings

| source | as written | input that shows it | evidently intended | confidence | as-written member | corrected member |
|---|---|---|---|---|---|---|
| html-tokenizer.go:196-199 | a `b` start tag advances `adjustedPos` by 4 but writes the 3 bytes `<b>`, so every later adjusted span is shifted one byte further right per `<b>` | `<b>x`: the adjusted span of `x` is `[4,5)` in the 4-byte buffer `<b>x` | advance by 3, the bytes written, as for `<i>` | high (not executed) | CleanStyle.OpenBoldDrift | CleanStyle.CorrectedSpansIndexOutput |
