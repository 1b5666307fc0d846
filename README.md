# mailbuilder in Dafny

A model of the core of `mailbuilder`, a Go library that decomposes a raw MIME
mail into a tree of messages and serialises such a tree back to bytes, with
proofs about that model. Five pieces are modelled:

- the text-protocol reader: lines, folded header lines, the MIME header
  block and its canonical keys, and the dot-unstuffing reader;
- the message node;
- the decomposer;
- the builder;
- the helpers: the 76-column line wrapper and the transfer-encoding dispatch.

Layout (one module per file):

| file | module | models |
|---|---|---|
| wrappers.dfy | Wrappers | `Option`, `Result` for Go's `(value, error)` returns |
| bytes.dfy | Bytes | bytes, ASCII literals, trimming, `Join`, `Concat`, decimal digits |
| mimeheader.dfy | MimeHeader | the token table, `isASCIILetter`, canonical keys, the in-place rewrite |
| dotcodec.dfy | DotCodec | the state machine of `dotReader.Read` as functions over the whole stream |
| textproto.dfy | TextProto | lines, continuation lines, the header loop and `ReadDotLines` as functions |
| reader.dfy | TextReader | the `Reader` class: a cursor over the input and the open dot reader |
| utils.dfy | MailUtils | `StringBreakLines`, `ByteBreakLines`, the encode/decode dispatch |
| message.dfy | Messages | `Message` (class) and `Msg` (the same node as a value), `SetOriginalHeaderOrder`, `Merge` |
| decomposer.dfy | Decomposer | `ReadMessage`, `Decompose`, `ExtractBoundary`, `ReadParts` |
| builder.dfy | Builder | `MessageBuilder`: `Build`, `BuildHeader`, `BuildBody`, newline accessors |

The modelling approach:

- **Specification functions.** Every loop of the Go code is an imperative
  method, proved equal to a pure function of its inputs. The properties are
  lemmas about those functions.
- **Bytes.** Go strings and byte slices are both `seq<byte>`, with
  `byte = 0..255`.
- **The reader.** It holds the whole input and a cursor. A line is the bytes
  before the next LF, with one CR before that LF dropped. This is what
  `bufio.Reader.ReadLine` gives for lines that fit its buffer.
- **Collaborators.** Code that is not part of this model is a parameter:
  - the base64 and quoted-printable codecs (`Codecs`);
  - `mime.ParseMediaType` and the multipart scanner (`Env`);
  - the iteration order of Go maps and `RandomBoundary` (`BuildEnv`).

  Their laws are predicates in the `requires` of the lemmas that use them.
- **The tree.** Decomposition and building work on the `Msg` value. The
  in-place operations of message.go (`AddPart`, `SetOriginalHeaderOrder`,
  `Merge`) are methods of the `Message` class.

Behaviour of the source that the model reproduces as written:

- **Raw header lines lose their CR.** Each physical header line is read with
  one CR before its LF dropped, and the raw header rejoins the lines with LF
  (`TextProto.MimeHeaderBlock`, `TextProto.RawHeaderLines`). So a header with
  CRLF line ends is rebuilt with LF ends, and only an LF-only header comes
  back byte for byte (`Builder.RoundTripSinglePart`), provided the `bufio`
  buffer is not refilled while a header line is read (see `TextProto.ContinuedAt`
  under "## Left out").
- **The depth bound does not hold.** The message/rfc822 depth seen by
  `ReadParts` is always 0, so the comment's five-level bound on nested
  messages does not hold (`Decomposer.DecomposeDepth`).
- **Quoted-printable encoding repeats the body.** The output is the body
  followed by its encoding (`MailUtils.QuotedPrintableRepeatsBody`).
- **A repeated name repeats the first value.** A name listed twice in the
  header order is emitted twice, both times with the first value
  (`Builder.FieldValues`).
- **Bare LF before a dot line.** In the middle of a line a bare LF moves the
  dot reader to the start of the next line, so "abc\n.\n" ends the block at
  the dot. A bare LF read at the start of a line (the first byte of the block,
  or an empty LF-only line) instead leaves the reader inside a line, so a "."
  line right after it is copied as data; `ReadDotLines` ends the block there
  (`TextProto.DotLinesBareLf`, `DotCodec.BareLfBeforeDotLine`).

## Model

| member | source | states |
|---|---|---|
| Bytes.DropLeft | mail-textproto/reader.go:66-76 | the result is a suffix of the input; every byte removed is in the cut set; the result is empty or starts outside it |
| Bytes.DropRight | mail-textproto/reader.go:66-76 | the result is a prefix of the input; every byte removed is in the cut set; the result is empty or ends outside it |
| Bytes.IndexOfByte | mail-textproto/reader.go:382 | the index of the first occurrence of the byte, or -1 exactly when it does not occur |
| Bytes.Decimal | decomposer.go:122 | `strconv.FormatInt(idx, 10)` of a part number is non-empty and made of decimal digits |
| Bytes.TrimSetAt | mail-textproto/reader.go:66-76 | trimming a string whose leading run ends at i and trailing run starts at n gives exactly `s[i..n]` |
| TextReader.Trim | mail-textproto/reader.go:66-76 | the loop of `trim` computes the string with leading and trailing spaces and tabs removed |
| MimeHeader.TokenExcludesSeparators | mail-textproto/reader.go:588-666 | space, tab, colon, CR and LF are not token bytes; '-' is one |
| MimeHeader.AsciiLetterIff | mail-textproto/reader.go:668-671 | `isASCIILetter` holds exactly for upper- and lower-case letters |
| MimeHeader.CanonicalKeyAt | mail-textproto/reader.go:504-535 | the canonical key has the length of the input; a non-token byte anywhere leaves the key unchanged; otherwise byte i is upper-cased after '-' or at the start and lower-cased elsewhere, non-letters kept |
| MimeHeader.CanonicalKeyLength | mail-textproto/reader.go:504-535 | canonicalising preserves length |
| MimeHeader.CanonicalKeyIdempotent | mail-textproto/reader.go:466-535 | canonicalising a canonical key changes nothing |
| MimeHeader.CanonicalKeyFixed | mail-textproto/reader.go:466-483 | a token key already spelled canonically is its own canonical key: the quick scan's early return is correct |
| MimeHeader.CanonicalizeInPlace | mail-textproto/reader.go:504-535 | `canonicalMIMEHeaderKey` rewrites the array in place to the canonical key of its old contents and returns that key |
| MimeHeader.CanonicalMIMEHeaderKey | mail-textproto/reader.go:466-483 | the scan-then-rewrite of `CanonicalMIMEHeaderKey` returns the same key as `canonicalMIMEHeaderKey` |
| DotCodec.Read | mail-textproto/reader.go:174-259 | a read never writes more than the room of the buffer and never reads past the input |
| DotCodec.ReadOutcome | mail-textproto/reader.go:174-259 | no error means the buffer was filled; EOF exactly when the end line was seen; unexpected EOF only at the end of the input; no other error |
| DotCodec.StepShrinks | mail-textproto/reader.go:187-251 | each byte step emits at most one byte and lowers the termination measure |
| DotCodec.StepOn | mail-textproto/reader.go:187-251 | one pass of the state machine on one byte: the next state, the byte written if any, and whether the byte is read again; its laws are `DotCodec.StepShrinks` and the line lemmas below |
| DotCodec.DotEncode | mail-textproto/reader.go:174-259 | the dot-stuffing encoder the reader undoes, each line ended by CRLF and the block by ".\r\n"; `DotCodec.DotRoundTrip` relates the two |
| DotCodec.ReadProgress | mail-textproto/reader.go:174-259 | a read never increases the measure and lowers it whenever it has room and input |
| DotCodec.Drain | mail-textproto/reader.go:263-273 | draining never reads past the input |
| DotCodec.ReadThenDrain | mail-textproto/reader.go:174-273 | a read followed by a drain stops where a drain from the start stops |
| DotCodec.DataLine | mail-textproto/reader.go:230-251 | a line of data ended by CRLF is emitted with LF in place of CRLF |
| DotCodec.EndLine | mail-textproto/reader.go:197-229 | ".\r\n" at the start of a line ends the block with EOF and emits nothing |
| DotCodec.EndLineBareLf | mail-textproto/reader.go:197-218 | ".\n" at the start of a line also ends the block with EOF |
| DotCodec.EmptyLineRoundTrip | mail-textproto/reader.go:197-238 | an empty CRLF line decodes to a single LF |
| DotCodec.DotLineRoundTrip | mail-textproto/reader.go:197-251 | any non-empty CR- and LF-free line sent after a leading '.' decodes to the line without that dot, followed by LF (".abc\r\n" reads as "abc\n") |
| DotCodec.DotStart | mail-textproto/reader.go:197-217 | a '.' at the start of a line followed by a byte other than CR or LF is dropped and the byte written |
| DotCodec.StuffedLineRoundTrip | mail-textproto/reader.go:197-251 | a line starting with '.' sent stuffed as ".." decodes to itself followed by LF; the case of `DotCodec.DotLineRoundTrip` where the line starts with '.' |
| DotCodec.PlainLineRoundTrip | mail-textproto/reader.go:197-251 | a line not starting with a dot decodes to itself followed by LF |
| DotCodec.LineRoundTrip | mail-textproto/reader.go:174-259 | any CR- and LF-free line, stuffed and ended by CRLF, decodes to itself followed by LF |
| DotCodec.DotRoundTrip | mail-textproto/reader.go:174-259 | a dot-encoded block of lines decodes to the lines each ended by LF, with EOF, consuming exactly the encoding |
| DotCodec.LoneCarriageReturn | mail-textproto/reader.go:230-238 | a CR not followed by LF is emitted as data |
| DotCodec.BareLfBeforeDotLine | mail-textproto/reader.go:174-259 | on "\n.\n" the reader emits all three bytes and reports an unexpected EOF |
| TextProto.LineEnd | mail-textproto/reader.go:39-62 | the position of the next LF, or the end of the input, with no LF before it |
| TextProto.ReadLineAt | mail-textproto/reader.go:39-62 | `readLineSlice` fails exactly at the end of the input; a line holds no LF and moves the cursor forward |
| TextProto.LineLf | mail-textproto/reader.go:39-62 | a line ended by LF alone is read as itself, consuming the LF |
| TextProto.LineCrLf | mail-textproto/reader.go:39-62 | a line ended by CRLF is read without the CR |
| TextProto.LineUnterminated | mail-textproto/reader.go:39-62 | a last line with no LF is read whole |
| TextProto.SkipWsp | mail-textproto/reader.go:127-144 | `skipSpace` stops at the first byte that is not space or tab, after a run of spaces and tabs |
| TextProto.ContinuedAt | mail-textproto/reader.go:78-124 | `readContinuedLineSlice` fails with EOF only at the end of the input and then returns nothing; a value comes with raw bytes |
| TextProto.ContinuedFold | mail-textproto/reader.go:78-124 | a first line ended by "\n" or "\r\n" and followed by folded lines gives the trimmed first line plus a space and the trimmed text of each fold, and the raw first line plus LF, the leading whitespace and the text of each fold |
| TextProto.ContinuationsFold | mail-textproto/reader.go:100-123 | the continuation loop reads exactly the folds laid out in the input: value and raw as above, cursor after the last fold |
| TextProto.Preview | mail-textproto/reader.go:355-363 | the error preview is the whole line up to 100 bytes, else 103 bytes: the first 50, "...", and the last 50 |
| TextProto.HeaderLoop | mail-textproto/reader.go:367-431 | the header loop moves forward; its error is none, EOF at the end of the input, or a protocol error |
| TextProto.HeaderBlock | mail-textproto/reader.go:367-431 | a block of logical field lines, each physical line ended by "\n" or "\r\n" and possibly folded, ended by an empty line or by the end of the input, gives the map of those lines, the raw lines joined by LF, the position after the block, and no error or EOF respectively |
| TextProto.MimeHeaderBlock | mail-textproto/reader.go:334-433 | `ReadMIMEHeader` of such a block at the start of the input returns its fields, its physical lines without their CR joined by LF, the position after the block, and no error after an empty line or EOF at the end of the input |
| TextProto.MalformedLine | mail-textproto/reader.go:382-393 | a logical line, folded or not, whose value has no colon stops the loop with "malformed MIME header line: " and the preview of the value, its raw text joined on |
| TextProto.MalformedInitialLine | mail-textproto/reader.go:350-365 | a header starting with space or tab fails with "malformed MIME header initial line: " and the preview, an empty map and no raw text |
| TextProto.FieldKey | mail-textproto/reader.go:396-400 | the key of a field line: the bytes before the colon with trailing spaces cut, canonicalised; `TextReader.KeyTrimmed` and `TextReader.ParseField` state it |
| TextProto.FieldValue | mail-textproto/reader.go:410-414 | the value of a field line: the bytes after the colon with leading spaces and tabs cut; `TextReader.ValueSkipped` states it |
| TextProto.SplitField | mail-textproto/reader.go:382-414 | a line with a colon is split at its first colon into `FieldKey` and `FieldValue` |
| TextProto.AddField | mail-textproto/reader.go:396-427 | one logical line added to the header; `TextProto.AddFieldValues` states its effect |
| TextProto.JoinRaw | mail-textproto/reader.go:371-374 | the raw header after one more logical line: a LF after what was there, if anything, then the raw line |
| TextProto.MimeHeaderAt | mail-textproto/reader.go:334-433 | `ReadMIMEHeader` from a position: the cursor only moves forward, and moves past something whenever there is no error |
| TextProto.LineEol | mail-textproto/reader.go:39-62 | a line without CR or LF ended by "\n" or by "\r\n" is read as itself, consuming the line end |
| TextProto.RawHeaderLines | mail-textproto/reader.go:78-124 | the raw text of logical lines is their physical lines, without CR, each followed by LF; where every line ends with "\n" alone it is the input bytes themselves |
| TextProto.PhysicalTextLines | mail-textproto/reader.go:78-124 | every physical line of a block of field lines is non-empty and has no CR or LF |
| TextProto.FoldBytesAt | mail-textproto/reader.go:100-123 | the bytes of continuation lines lay them out in the input and end right after them |
| TextProto.NextStops | mail-textproto/reader.go:100-104 | after a logical line of a block comes another line, the blank line or the end, never a space or tab: the continuation loop stops there |
| TextProto.FirstLogicalLine | mail-textproto/reader.go:78-124 | a logical line followed by no white space is read as its unfolded value and raw text, with the cursor after its last fold |
| TextProto.AddFieldValues | mail-textproto/reader.go:396-427 | adding a field line appends its value to the values of its key; an empty key adds nothing; other keys are unchanged |
| TextProto.AddLinesValues | mail-textproto/reader.go:396-427 | the values of each key after a block of lines are the earlier values then the values of that key's lines in order |
| TextProto.DotLinesFrom | mail-textproto/reader.go:286-312 | reading dot lines moves forward |
| TextProto.DotLinesRoundTrip | mail-textproto/reader.go:286-312 | `ReadDotLines` of a dot-encoded block returns the lines, no error, and stops after ".\r\n" |
| TextProto.DotLinesBareLf | mail-textproto/reader.go:286-312 | `ReadDotLines` ends the block at "\n.\n" where the dot reader does not |
| TextProto.TrimKeepsFirst | mail-textproto/reader.go:66-76 | trimming a line that starts outside whitespace keeps its first byte and adds no byte |
| TextReader.Reader.constructor | mail-textproto/reader.go:28-30 | `NewReader` starts at position 0 with no dot reader open |
| TextReader.Reader.DotRead | mail-textproto/reader.go:174-259 | `dotReader.Read` writes exactly the bytes of `Read`, leaves the rest of the buffer alone, and advances the cursor and state as `Read` says |
| TextReader.Reader.CloseDot | mail-textproto/reader.go:263-273 | `closeDot` drains the open dot reader to its end and closes it |
| TextReader.Reader.OpenDot | mail-textproto/reader.go:162-166 | `DotReader` closes the old dot reader and opens a new one at the start of a line |
| TextReader.Reader.ReadLineSlice | mail-textproto/reader.go:39-62 | `readLineSlice` closes the dot reader and returns the next line, or EOF at the end |
| TextReader.Reader.SkipSpace | mail-textproto/reader.go:127-144 | `skipSpace` advances over the run of spaces and tabs and returns it |
| TextReader.Reader.ReadContinuedLineSlice | mail-textproto/reader.go:78-124 | `readContinuedLineSlice` returns the value, raw bytes, error and position of `ContinuedAt` |
| TextReader.Reader.ReadContinuations | mail-textproto/reader.go:100-123 | the continuation loop appends the folds after the first line |
| TextReader.Reader.ReadMIMEHeader | mail-textproto/reader.go:334-433 | `ReadMIMEHeader` returns the map, raw header, error and position of `MimeHeaderAt` |
| TextReader.Reader.ReadHeaderLines | mail-textproto/reader.go:367-431 | the header loop returns what `HeaderLoop` returns |
| TextReader.Reader.ReadDotLines | mail-textproto/reader.go:286-312 | `ReadDotLines` returns the lines and error of `DotLinesFrom` |
| TextReader.ParseField | mail-textproto/reader.go:396-414 | the split of a field line: key before the first colon with trailing spaces removed and canonicalised, value after it with leading spaces and tabs removed |
| TextReader.KeyTrimmed | mail-textproto/reader.go:396-400 | the backwards scan over spaces removes exactly the trailing spaces, and not tabs |
| TextReader.ValueSkipped | mail-textproto/reader.go:410-414 | the forward scan over spaces and tabs removes exactly the leading whitespace of the value |
| MailUtils.StringBreakLines | utils.go:80-109 | the loop's output is the chunks of the data joined by the separator |
| MailUtils.ByteBreakLines | utils.go:73-76 | the byte version gives the same bytes as the string version |
| MailUtils.ChunksConcat | utils.go:95-105 | the chunks put back together are the data |
| MailUtils.ChunkSizes | utils.go:95-98 | every chunk but the last has exactly `charsNo` bytes; the last has 1 to `charsNo` |
| MailUtils.JoinLength | utils.go:89-105 | the output has one separator between each two chunks |
| MailUtils.BreakLinesShape | utils.go:80-109 | empty data gives empty output; the output starts with the first chunk and ends with the last, with no separator before or after |
| MailUtils.EncodeByContentEncoding | utils.go:17-32 | the body as it goes out: base64 wrapped at 76 columns with LF, quoted-printable as the body followed by its encoding, anything else as it is; `MailUtils.Base64Wrapped`, `MailUtils.QuotedPrintableRepeatsBody` and `MailUtils.DecodeOutcome` state it |
| MailUtils.DecodeByContentEncoding | utils.go:38-56 | the body decoded: base64 after cutting CR, LF and tab at both ends, quoted-printable as it is, with the decoded flag, or the codec's error with no data; `MailUtils.DecodeOutcome` and `MailUtils.Base64RoundTrip` state it |
| MailUtils.DecodeOutcome | utils.go:17-56 | an unknown encoding gives the body, not decoded, no error, and encodes to itself; an error gives no data; success says decoded exactly for base64 and quoted-printable; decoding never grows the body |
| MailUtils.QuotedPrintableRepeatsBody | utils.go:23-28 | the quoted-printable branch returns the body followed by its encoding |
| MailUtils.Base64Wrapped | utils.go:19-22 | the base64 branch is the encoding cut into lines of at most 76 bytes joined by LF |
| MailUtils.Base64RoundTrip | utils.go:17-56 | decoding the base64 branch's output gives back the body, marked decoded, with no error |
| Messages.HeaderLinesFrom | message.go:70-88 | the lines the order scan reads are non-empty and hold no LF |
| Messages.FieldName | message.go:79-83 | the name of a field line is the text before its first colon, or the whole line |
| Messages.StartsFieldIff | message.go:78-83 | a line adds a name exactly when it does not start with space or tab; the name is a prefix without a colon |
| Messages.ScanHeaderOrder | message.go:66-94 | the scan's order and raw text are those of `OriginalOrder` of the old raw text and the body |
| Messages.OriginalOrderOfBlock | message.go:66-94 | for any non-empty lines without CR or LF joined by LF: the names of the lines that do not start with space or tab, in order, and the lines appended to the old raw text |
| Messages.OrderOfFieldLines | message.go:76-88 | the names the order scan finds in the physical lines of a header block are the field names of its logical lines, in order: continuation lines add none |
| Messages.NamesOfFieldLine | message.go:76-88 | a field line followed by continuation lines that have no name adds exactly its own name to the order |
| Messages.OriginalOrder | message.go:66-94 | the order scan as a function: the fields named in order and the raw text after the old one; `Messages.ScanHeaderOrder` and `Messages.OriginalOrderOfBlock` state it |
| Messages.MergeHeader | message.go:97-106 | the header after `Merge`: each visited key set to its first value or deleted; `Messages.MergeKeepsOthers`, `Messages.MergeSetsOrDeletes` and `Messages.MergeOrderFree` state it |
| Messages.MergeDeletesOnly | message.go:97-106 | merging into an empty (nil) header a header whose every first value is empty leaves it empty: only deletes happen, which a nil map allows |
| Messages.Msg.IsMultipart | message.go:46-51 | a node is multipart exactly when it has parts |
| Messages.Msg.IsRfc822 | message.go:60-62 | a node is message/rfc822 exactly when it holds a nested message |
| Messages.Message.IsMultipart | message.go:46-51 | the class node is multipart exactly when it has parts |
| Messages.Message.IsRfc822 | message.go:60-62 | the class node is message/rfc822 exactly when it holds a nested message |
| Messages.MergeKeepsOthers | message.go:99-105 | keys of the receiver not named by the merged header keep their values |
| Messages.MergeSetsOrDeletes | message.go:99-105 | with canonical merged keys, a merged key is set to its single first value when that is non-empty and deleted when it is empty |
| Messages.MergeLastWins | message.go:98-104 | for any keys: the canonical key of a merged key holds that key's single first value when it is non-empty and is deleted when it is empty, provided no key visited later canonicalises to the same key (the last one visited wins) |
| Messages.MergeOrderFree | message.go:99-105 | the merged header does not depend on the order the keys are visited in |
| Messages.Message.constructor | message.go:11-43 | `&Message{}`: every field at its zero value, the header Go's nil map (`headerNil`), no body, parts, nested message, boundary or parent; `Valid` holds: a nil header has no fields. `AddPart` and `SetOriginalHeaderOrder` keep `Valid` |
| Messages.Message.AddPart | message.go:54-57 | the part is appended last and gets this node as parent; no other field of either node changes |
| Messages.Message.SetOriginalHeaderOrder | message.go:66-94 | the order is reset and rebuilt, the raw header appended to, as `OriginalOrder` says; other fields unchanged |
| Messages.Message.Merge | message.go:97-112 | the header is merged; body, nested message, boundary and parts are taken from the other node; the header is marked changed; the rest is unchanged; on a nil header (a zero `Message`) only deletes are allowed, since `Set` on it panics; every value slice of the other header must be non-empty (`HasValues`), since `val[0]` panics on an empty one (message.go:99); and `Valid` (a nil header has no fields) is kept, by `Messages.MergeDeletesOnly` |
| Decomposer.SpelledGet | decomposer.go:139 | `Header.Get` of a canonically spelled name reads that key directly |
| Decomposer.ContentTypeCanonical | decomposer.go:84 | "Content-Type" is canonical, so `Get` reads that key |
| Decomposer.TransferEncodingCanonical | decomposer.go:145 | "Content-Transfer-Encoding" is canonical, so `Get` reads that key |
| Decomposer.ExtractBoundary | decomposer.go:83-89 | the boundary parameter with no error when it exists, else the empty string with the parser's error; stated by `Decomposer.BoundaryErrorIgnored` and `Decomposer.ReadPartsIs` |
| Decomposer.PartIdx | decomposer.go:119-122 | the number of part n: `n`, or the parent's number, '-' and `n`; `Decomposer.PartIdxDistinct` states it |
| Decomposer.NewPart | decomposer.go:113-122 | the node for a scanned part: the scanner's header and raw header, the parent's depth and the part's number; `Decomposer.MultipartOutcome` states it |
| Decomposer.RootNode | decomposer.go:50-55 | the node `Decompose` makes: the header read, the order and raw header of `SetOriginalHeaderOrder`, the given number, depth 0; `Decomposer.DecomposeOutcome` states it |
| Decomposer.DecomposeSpec | decomposer.go:40-64 | `Decompose` as a function: the header error, else the parts error, else the node; stated by `Decomposer.DecomposeOutcome` and `Decomposer.DecomposeDepth` |
| Decomposer.ReadPartsSpec | decomposer.go:93-167 | `ReadParts` as a function: multipart with a boundary, else the read error, else a single part; stated by `Decomposer.ReadPartsIs` and `Decomposer.ReadPartsKeeps` |
| Decomposer.PartsFrom | decomposer.go:96-130 | the part loop from part i on; stated by `Decomposer.PartsStep` and `Decomposer.PartsFromIsCollect` |
| Decomposer.SinglePart | decomposer.go:131-165 | the single-part branch: the nested message when the unwrap works, else the raw body; stated by `Decomposer.SinglePartOutcome` |
| Decomposer.Rfc822Attempt | decomposer.go:139-159 | the unwrap: decode by transfer encoding, decompose as part `idx-0`, nothing on any failure; stated by `Decomposer.SinglePartOutcome` |
| Decomposer.Unwrapped | decomposer.go:147-157 | the node holding a parsed nested message, one level deeper, with the codec's decoded flag |
| Decomposer.ReadMessage | decomposer.go:19-31 | a failed header read returns an empty header, the raw text read and that error; otherwise the header, raw header and the bytes after the header |
| Decomposer.Decompose | decomposer.go:40-64 | `Decompose` returns the tree of `DecomposeSpec` or exactly its error |
| Decomposer.ReadParts | decomposer.go:93-167 | `ReadParts` updates the node and returns the error as `ReadPartsSpec` says |
| Decomposer.ReadMultipart | decomposer.go:96-130 | the part loop gives what `PartsFrom` gives |
| Decomposer.ReadSinglePart | decomposer.go:131-165 | the single-part branch gives what `SinglePart` gives |
| Decomposer.ReadPartsIs | decomposer.go:93-167 | a boundary means multipart; otherwise a read error is returned as it is; otherwise the single-part branch |
| Decomposer.BoundaryErrorIgnored | decomposer.go:83-96 | a missing boundary parameter is not an error: the node is read as a single part |
| Decomposer.PartsStep | decomposer.go:104-129 | one part: a child error is returned at once with the parts so far, else the child is appended and the loop goes on |
| Decomposer.CollectOutcome | decomposer.go:104-129 | the parts are the children in scanner order up to the first error; that error, or the scanner's end, is returned |
| Decomposer.PartsFromIsCollect | decomposer.go:104-129 | the lazy part loop equals collecting the eagerly decomposed children |
| Decomposer.MultipartOutcome | decomposer.go:96-130 | a multipart node's result collects its children; child j keeps the scanner's header, raw header and the parent's depth, and is numbered j + 1 |
| Decomposer.PartIdxDistinct | decomposer.go:101-122 | part n's index is `n`, or the parent index, '-' and `n`; different parts get different indexes |
| Decomposer.DecimalInjective | decomposer.go:101-122 | different part numbers have different decimal spellings |
| Decomposer.SinglePartOutcome | decomposer.go:131-165 | a non-multipart node never fails; it holds a nested message exactly when it is message/rfc822, decodes and parses, with depth one more and the codec's decoded flag; otherwise the raw body |
| Decomposer.ReadErrorPasses | decomposer.go:93-135 | a non-multipart node returns the body reader's error unchanged |
| Decomposer.ReadPartsKeeps | decomposer.go:93-167 | `ReadParts` never changes the header, raw header, order, index or depth of a node |
| Decomposer.DecomposeOutcome | decomposer.go:19-64 | a failed header read is returned as the error; on success the index is `partIdx`, the depth 0, the order and raw header come from `SetOriginalHeaderOrder`, and a simple body is the bytes after the header |
| Decomposer.DecomposeDepth | decomposer.go:53-150 | a decomposed tree has depth 0 at every node except a nested message's root, which has 1; so the `< 5` check never stops a nested parse |
| Builder.MessageBuilder.constructor | builder.go:12-14 | a new builder's newline is the empty string |
| Builder.MessageBuilder.SetNewline | builder.go:21-23 | sets the newline |
| Builder.MessageBuilder.GetNewline | builder.go:25-27 | returns the newline last set |
| Builder.MessageBuilder.BuildHeader | builder.go:64-96 | the header written is `BuildHeaderSpec` |
| Builder.MessageBuilder.Build | builder.go:34-57 | the bytes and the updated tree are those of `BuildSpec` |
| Builder.MessageBuilder.BuildBody | builder.go:103-134 | the body bytes and the updated node are those of `BuildBodySpec` |
| Builder.MessageBuilder.BuildParts | builder.go:118-127 | the part loop appends each part's opening delimiter and rebuilt bytes, a newline between parts |
| Builder.BuildHeaderSpec | builder.go:64-96 | `BuildHeader` as a function; stated by `Builder.HeaderVerbatim`, `Builder.PresentCount`, `Builder.FreshCoversHeader` and `Builder.FieldValues` |
| Builder.BuildSpec | builder.go:34-57 | `Build` as a function: header, two newlines, body re-encoded when it was decoded; stated by `Builder.RebuildStable` and `Builder.RoundTripSinglePart` |
| Builder.BuildBodySpec | builder.go:103-134 | `BuildBody` as a function; stated by `Builder.PartsOutcome`, `Builder.BodyKeeps` and `Builder.BuildDraws` |
| Builder.InnerSpec | builder.go:106-110 | what comes before the parts; stated by `Builder.InnerOutcome` |
| Builder.BuildPartsSpec | builder.go:118-127 | the first k parts rebuilt in turn: k outputs and k rebuilt nodes; stated by `Builder.PartsAre` |
| Builder.HeaderVerbatim | builder.go:66-68 | an unchanged raw header is returned with all its trailing CR and LF bytes removed |
| Builder.PresentCount | builder.go:73-83 | a name in the header order is emitted once per occurrence when its canonical key is present, else never |
| Builder.AddedKeys | builder.go:73-83 | a key is marked added exactly when it is in the header and some name in the order has that canonical key |
| Builder.FreshCount | builder.go:85-93 | the map loop emits each key not yet added, once per visit |
| Builder.FreshCoversHeader | builder.go:85-93 | for any visiting order, each header key not named in the order is emitted exactly once, and nothing else |
| Builder.FieldValues | builder.go:73-93 | each emitted field is the name, ": " and the first value of its canonical key; there is one field per emitted name |
| Builder.BuildDraws | builder.go:113-116 | building draws one random boundary per multipart node without a boundary |
| Builder.PartsAre | builder.go:118-127 | the rebuilt parts are each part built in turn, with the draws threaded through |
| Builder.InnerOutcome | builder.go:106-110 | a nested message is rebuilt in place of the body; otherwise the body is written as it is |
| Builder.PartsOutcome | builder.go:113-129 | a multipart body is the inner bytes, then part i's newline if i > 0, opening delimiter and bytes, then the closing delimiter; the boundary is the old one or a fresh one |
| Builder.BodyKeeps | builder.go:103-134 | `BuildBody` changes only the nested message, boundary and parts; the boundary only when there are parts and it was empty |
| Builder.RebuildStable | builder.go:34-57 | building a built tree again, with the same codecs and boundary source and any map visiting order, returns the same tree and draws no boundary; it writes the same bytes when each header map is visited in the same order as before, or when both builds visit each key once and every rebuilt header is the raw one or leaves at most one key to the map loop |
| Builder.HeaderOrderIrrelevant | builder.go:64-96 | two builds write the same header when they visit the map in the same order, or when both visit each key once and the header is the raw one or leaves at most one key to the map loop |
| Builder.FreshOrderFree | builder.go:85-93 | when at most one key of the header is not named by the order, the map loop writes the same keys in any visiting order that visits each key once |
| Builder.DecomposeSinglePart | decomposer.go:40-64 | decomposing a mail whose header is logical field lines (folded or not, "\n" or "\r\n" ends) with a simple body gives its physical header lines joined by LF, its field names in order, the map of its lines and its body |
| Builder.HeaderOfMessage | mail-textproto/reader.go:334-433 | reading the header of such a mail stops after the empty line and gives back its physical lines joined by LF |
| Builder.BuildSinglePart | builder.go:34-57 | a node with an unchanged raw header and a simple body builds to raw header, two newlines and body |
| Builder.BuildLines | builder.go:34-68 | with newline LF a node whose raw header is non-empty text lines joined by LF builds to those lines each ended by LF, an empty line and the body |
| Builder.RoundTripSinglePart | builder.go:34-68 | building with newline LF what the decomposer made of such a mail gives its physical header lines each ended by LF, an empty line and the body; for an LF-only header that is the mail back byte for byte (for Go, when no `bufio` refill happens inside a header line; see `TextProto.ContinuedAt` under "## Left out") |

## Left out

- `ReadLine` and `ReadDotBytes` (mail-textproto/reader.go:34-37, 278-284) are thin wrappers outside the modelled core.
- Line fragmentation for lines longer than the `bufio` buffer (mail-textproto/reader.go:48-59, message.go:73): every line is taken to fit.
- The `Peek` fast path, `upcomingHeaderNewlines`, the preallocation of value slices and `commonHeader` interning (mail-textproto/reader.go:93-98, 338-342, 416-424, 437-456, 531-584) are not modelled: they return the same values as the slow path. The slow path itself differs from the model when the `bufio` buffer is refilled, as the next three lines say.
- TextProto.ContinuedAt: the raw text it returns is what Go returns only when the `bufio` buffer is not refilled while one logical line is read. In Go the raw line aliases `bufio`'s 4096-byte buffer (`readLineSlice` returns `l, l`, mail-textproto/reader.go:50), and `readContinuedLineSlice` keeps that slice across `skipSpace` and the next `readLineSlice` (mail-textproto/reader.go:93-120). A refill there slides the unread bytes over it, and the later appends then write into the buffer. The model reads from an immutable byte sequence, so it does not capture this aliasing. A sufficient condition for agreement is that the header block and the byte after it lie within the first 4096 bytes of the input. The unfolded value, the error and the position are not affected, since the value is copied into `r.buf` (mail-textproto/reader.go:102).
- TextReader.Reader.ReadContinuedLineSlice: its raw result agrees with Go only under the no-refill condition of the `TextProto.ContinuedAt` line above.
- TextReader.Reader.ReadContinuations: the loop's appends to `originalLine` (mail-textproto/reader.go:105-121) are modelled as appends to a fresh sequence, not as writes into `bufio`'s buffer. It agrees with Go under the no-refill condition of the `TextProto.ContinuedAt` line above.
- The multipart scanner and `mime.ParseMediaType` are not part of this model; they are the parameters `Env.scan` and `Env.parseMediaType`, with the law that each part is shorter than the body. A nested multipart is scanned from the part's body alone; in Go `multipart.NewReader` reads through the part's own reader (decomposer.go:100, 124), so a read error of a truncated outer part would reach the nested scan, whereas the model does not consult the part's read error on that branch.
- The base64 and quoted-printable codecs of Go's library are not part of this model; they are `Codecs`, with the laws that decoding does not grow its input and, for base64, that decoding undoes encoding and skips CR and LF.
- `RandomBoundary` (utils.go:62-69) uses the system's random source and may panic; the builder takes the boundaries as a parameter `randomBoundary(n)` for the n-th draw, 60 hexadecimal digits each where a lemma needs it.
- The iteration order of Go maps (builder.go:85, message.go:99) is the parameter `keyOrder` of one build; the lemmas about one build hold for every order that visits each key once. Go may visit the same map in a different order each time it ranges over it, so a statement about two builds takes two `BuildEnv`s (`Builder.RebuildStable`).
- Builder.RebuildStable: equal bytes are not promised for a rebuilt header with two or more keys outside its header order when the two builds visit the map in different orders; the map loop (builder.go:85-93) then writes those keys in the order of each visit, so Go can write "A: x\nB: y" the first time and "B: y\nA: x" the second.
- Messages.MergeSetsOrDeletes: stated for canonical merged keys only, since distinct keys of the other header that canonicalise alike are set one after the other; `Messages.MergeLastWins` states the general case, where the key visited last wins.
- Messages.Message.Merge: a header of `m` with an empty value slice makes Go panic at `val[0]` (message.go:99); the model has no panic and excludes such a header with `HasValues`, as every merge lemma does.
- `DecomposeFile` (decomposer.go:68-79) is file I/O and `DebugMessageStructure` (utils.go:115-138) is debug printing.
- The `Parent` link is kept only on the `Message` class; the `Msg` value used by the decomposer and the builder has no link to its parent.
- `Get` is modelled as reading the canonical key of its argument; `Builder.FieldValues`, `Messages.MergeOrderFree` and `Messages.MergeSetsOrDeletes` assume the header's keys are canonical, as the reader produces them.
- Builder.BuildDraws: counts one draw per occurrence of a boundary-less multipart node. The `Msg` value is a tree without sharing, whereas a Go `*Message` reachable twice gets its boundary on the first visit (builder.go:114-116) and draws once.
- Values in place of references: the decomposer and the builder work on `Msg` values, so the in-place update of `Boundary` by `BuildBody` (builder.go:114-116) is returned as a new tree rather than written through shared references.
- Builder.RoundTripSinglePart: its byte-for-byte statement is for headers whose lines all end with "\n"; for "\r\n" ends it states the LF-ended result, since the CR is lost as described above. For Go it also needs the no-refill condition of the `TextProto.ContinuedAt` line, since the header is read through a `bufio.Reader` (decomposer.go:19-31).
- TextProto.HeaderBlock: covers blocks whose every physical line ends with a line end and holds no CR; a CR inside a line or a last field line cut off by the end of the input is covered only by the general `TextProto.HeaderLoop` contract.
- Errors of the underlying `io.Reader` other than the end of input do not arise: the input is a byte sequence held whole.
