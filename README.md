# Guest book: a verified model of its signature log

The guest book keeps its signatures in one file. `GuestBook.Write` opens the
file for appending and writes two things: the standard base64 encoding of the
signature (section 4 of RFC 4648, Go's `base64.StdEncoding`) and one line feed.
The first write that opens the file creates it if it is absent, and the file is never truncated.
`GuestBook.Entries` handles the read side.

- It reads the whole file. A missing file is an error.
- It splits the contents on line feeds (`bytes.Split`).
- It decodes each piece into a fresh zero-filled buffer of `DecodedLen` bytes, ignoring the count and the error that `Decode` returns.
- Each entry is `html.EscapeString` of that whole buffer.

The model has four modules:

- `Bytes` (`bytes.dfy`): the `byte` type, `Zeros` and `Split` with its inverse `Join`.
- `Base64` (`base64.dfy`):
  - the encoder, `DecodedLen` and Go's decoder;
  - the decoder is a function (`Decode`) and a method that writes into an array (`DecodeInto`);
  - the decoder covers line breaks, padding, trailing garbage and incomplete quanta, not just well-formed input.
- `Html` (`html.dfy`): the escaper and a reference inverse `Unescape`.
- `Guestbook` (`guestbook.dfy`):
  - the file state (absent, or present with its bytes);
  - the class `GuestBook`, whose `Write` and `Entries` methods work on that state;
  - the specification functions `Log` (the bytes that a history of writes leaves), `Parse` and `Listing` (what reading gives);
  - the lemmas that connect them.

The proofs establish the following:

- A write appends exactly `Encode(data) + "\n"`. The encoding holds no line break, so each write adds exactly one line.
- Once a write has succeeded, a guest book that started without a file lists one entry per successful write, in write order (not reversed), followed by one empty entry. Before any write has succeeded there is no file, and reading gives the not-exist error.
- Each entry is the escaped data plus the zero filler of the buffer: no byte when `|data|` is a multiple of 3, otherwise two or one bytes.
- Decoding an encoding gives the data back without error.
- An escaped entry holds no raw markup byte.

The code does the following, which a reader may not expect:

- Entries are listed in write order, not most recent first.
- An empty write is not skipped. It appends a bare line feed and later shows up as an empty entry.
- Decode errors do not abort the listing. They are ignored, and the partial output stays in the zero-filled buffer.
- The entries are HTML-escaped by the core itself.
- An entry is not the written data itself. It is the escaped data followed by the buffer's zero filler.
- A missing file is reported as an error (`NotExist`), not as an empty list.

## Model

| member | source | states |
|---|---|---|
| Guestbook.GuestBook.constructor | main.go:70-73 | the guest book starts on a given file state, with an empty history of writes |
| Guestbook.GuestBook.Write | main.go:107-122 | if the open is refused: returns the open error and changes nothing. Otherwise: the file exists afterwards (created if absent), its old bytes are kept and exactly `Encode(data)` + line feed is appended, and the write joins the history. The file stays the initial bytes followed by the log of the successful writes |
| Guestbook.GuestBook.Entries | main.go:83-105 | the result is the listing of the file: the not-exist error exactly when there is no file; otherwise one entry per piece of `Split(contents)`, in file order, each the escaped zero-filled decoding buffer of that piece. The file is not changed |
| Guestbook.DecodeLine | main.go:99-101 | a fresh zero-filled buffer of `DecodedLen(|v|)` bytes, with `Decode` written into it and its count and error ignored, escaped, yields the entry of line `v` |
| Guestbook.GuestBook.ListingOfHistory | main.go:94-104 | on a guest book whose file exists and started without a file, or with an empty one: the listing has one more entry than there were successful writes; entry i is what write i shows up as; the last entry is empty |
| Guestbook.GuestBook.ListTwice | main.go:83-105 | two reads with no write between them return the same result |
| Guestbook.TwoSignatures | main.go:83-122 | from an absent file, after writes of a then b: both succeeded lists `[Shown(a), Shown(b), ""]`; only one succeeded lists that one and the empty entry; neither succeeded gives the not-exist error |
| Guestbook.Parse | main.go:94-104 | the entries of a file's contents, one per piece of `Split`, in order: no contract of its own; the method `GuestBook.Entries` is proved equal to it, and `ParseAfterWrite`, `ParseLog`, `ParseOne` and `ParseTwo` state its properties |
| Guestbook.Listing | main.go:86-104 | what reading gives: the not-exist error for an absent file, otherwise `Parse` of its contents: no contract of its own; `GuestBook.Entries` is proved equal to it, and `ListingOfHistory` states it for a history of writes |
| Guestbook.LogAppend | main.go:116-119 | a further successful write extends the log by its encoding and a line feed |
| Guestbook.WriteAddsOneLine | main.go:116-119 | appending a write's line to any file adds exactly one piece: the encoding completes the last piece and a new empty piece follows; earlier pieces are unchanged |
| Guestbook.EmptyWrite | main.go:116-119 | an empty write appends a bare line feed and shows up as an empty entry |
| Guestbook.LogEndsInLineFeed | main.go:119 | the log of any history of writes is empty or ends with a line feed |
| Guestbook.LastPieceEmpty | main.go:94 | a file that is empty or ends with a line feed splits into pieces whose last is empty |
| Guestbook.EmptyEntry | main.go:99-101 | the empty piece becomes the empty entry |
| Guestbook.ParseAfterWrite | main.go:94-104 | on a file ending with a line feed, a write replaces the trailing empty entry by the written data's entry and appends a new empty entry |
| Guestbook.SplitLog | main.go:94 | the log of k writes splits into k+1 pieces: piece i is the encoding of write i, and the last piece is empty |
| Guestbook.ParseLog | main.go:94-104 | the log of k writes lists k+1 entries, in write order, entry i from write i, and the last one empty |
| Guestbook.ParseOne | main.go:94-104 | the log of one write lists that write's entry and the empty entry |
| Guestbook.ParseTwo | main.go:94-104 | the log of writes a, b lists a's entry, b's entry and the empty entry, in that order |
| Guestbook.DecodedLine | main.go:99-100 | the decoding buffer of a line is `DecodedLen` of the line's length, whatever `Decode` wrote |
| Guestbook.FilledBuffer | main.go:99-100 | a zero buffer of `DecodedLen` bytes, with the decoder's output at its front and the rest unchanged, is the decoded line |
| Guestbook.DecodedLineOfEncode | main.go:99-100 | the buffer of an encoded line holds the data followed by `Fill(|data|)` zero bytes |
| Guestbook.ShownIsEscapedData | main.go:99-101 | the entry of a write is the escaped data followed by the zero filler |
| Guestbook.ShownFiller | main.go:99-101 | the entry of a write equals the escaped data when `|data| % 3 == 0`; otherwise the escaped data followed by two zero bytes (remainder 1) or one (remainder 2) |
| Bytes.Zeros | main.go:99 | a freshly made buffer of n bytes has length n and holds only zeros |
| Bytes.Split | main.go:94 | `bytes.Split` on "\n": its own contract says there is at least one piece; its properties are stated by `JoinSplit`, `SplitJoin`, `SplitCount`, `SplitHasNoLF` and `SplitAppendLine` |
| Bytes.JoinSplit | main.go:94 | joining the pieces of `Split(s)` with line feeds gives s back |
| Bytes.SplitJoin | main.go:94 | on one or more pieces free of line feeds, `Split` inverts `Join` |
| Bytes.SplitCount | main.go:94 | `Split(s)` has one more piece than s has line feeds |
| Bytes.SplitHasNoLF | main.go:94 | no piece holds a line feed |
| Bytes.SplitLine | main.go:94 | a line-feed-free line followed by a line feed is split off as one piece |
| Bytes.SplitLineFree | main.go:94 | a string free of line feeds is a single piece |
| Bytes.SplitAppendLine | main.go:94 | appending a line-feed-free string and a line feed extends the last piece by it and adds an empty piece; earlier pieces are unchanged |
| Base64.ValueOfSymbol | main.go:96-100 | the decoding map inverts the alphabet on 0..63; '=', line feed and carriage return are not symbols |
| Base64.SymbolOfValue | main.go:96-100 | the alphabet inverts the decoding map on the symbols |
| Base64.GroupValuesDecode | main.go:100 | decoding the four 6-bit values of three bytes gives the three bytes; zero bytes at the end give zero bits at the end |
| Base64.Encode | main.go:116-118 | the encoder's output: no contract of its own; its properties are stated by `EncodeLength`, `EncodeAlphabet`, `EncodeHasNoLineBreak` and `DecodeEncode` |
| Base64.EncodeGroupSymbols | main.go:116-118 | the four symbols of a group are all in the alphabet |
| Base64.EncodeLength | main.go:116-118 | the encoding of d has `4 * ceil(|d| / 3)` bytes |
| Base64.EncodeAlphabet | main.go:116-118 | every byte of the encoding is an alphabet symbol or '=' |
| Base64.EncodeHasNoLineBreak | main.go:116-119 | the encoding holds neither a line feed nor a carriage return |
| Base64.DecodedLen | main.go:99 | `enc.DecodedLen` for the padded encoding, `n / 4 * 3`: no contract of its own; its properties are stated by `DecodedLenOfEncode`, `Decode` and `DecodedLine` |
| Base64.DecodedLenOfEncode | main.go:99 | `DecodedLen` of an encoding's length is the data's length rounded up to whole groups of three |
| Base64.DecodeQuantum | main.go:100 | a decoding step consumes input (at least one byte on non-empty input), writes at most three bytes, and writes only after reading four symbols' worth of input |
| Base64.Decode | main.go:100 | the decoder never writes more than `DecodedLen` of its input length |
| Base64.DecodeInto | main.go:100 | the decoder writes its output at the front of the buffer and reports the count and success; in the model the bytes past the count are left as they were (see "## Left out") |
| Base64.DecodeEncodeGroup | main.go:100 | a quantum of four symbols decodes to its three bytes, leaving the rest of the input |
| Base64.DecodeEncodeOne | main.go:100 | the encoding of one final byte ("xx==") decodes to it |
| Base64.DecodeEncodeTwo | main.go:100 | the encoding of two final bytes ("xxx=") decodes to them |
| Base64.DecodeEncode | main.go:99-100 | decoding the encoding of d gives d back, without error |
| Html.EscapeByte | main.go:101 | bytes other than & ' < > " are kept; those five become a reference starting with '&' |
| Html.Escape | main.go:101 | escaping never shortens a string |
| Html.EscapeByteHasNoMarkup | main.go:101 | no replacement holds ' < > or " |
| Html.EscapeHasNoMarkup | main.go:101 | an escaped string holds no raw ' < > or " |
| Html.EscapeAppend | main.go:101 | escaping distributes over concatenation |
| Html.EscapeUnchangedIff | main.go:101 | escaping leaves a string unchanged if and only if it holds none of the five special bytes |
| Html.EscapeZeros | main.go:101 | the zero bytes of a decoding buffer are not escaped |
| Html.UnescapeEscapeByte | main.go:101 | unescaping a replacement followed by anything gives the byte back first |
| Html.UnescapeEscape | main.go:101 | escaping loses nothing: unescaping recovers the original bytes |

## Left out

- The HTTP handlers (main.go:18-66) are network glue. That includes the 1024-byte cap on a signature: `Write` accepts data of any length.
- Flag parsing, the file name argument and process exit are process plumbing. The path in `File` is not modelled because the file state stands for the file at that path.
- The mutex: operations are modelled as atomic and sequential, which is what the lock provides.
- JSON marshalling (`MarshalJSON`) is a library call, and its UTF-8 replacement rules are not part of this model.
- File-system failures other than "file absent" (on read) and "open refused" (on write) are left out. Whether an open is granted is a nondeterministic choice. The encoder's writes, its `Close`, the line-feed write and closing the file are taken to succeed, and their errors are not reported, as in the source.
- `ioutil.ReadFile` errors other than a missing file are not modelled: a file that exists always reads.
- The Go library sources of `encoding/base64`, `bytes` and `html` are not part of this model. The model follows how they are implemented, not just their documentation: the decoder follows `decodeQuantum` (line breaks skipped anywhere, including between the two `=`, and the bytes of a padded quantum written even when trailing garbage follows); the split follows `bytes.Split`; the escaper follows the replacer of `html.EscapeString`, including its exact references `&#39;` and `&#34;`. `Html.Unescape` is a reference inverse for the five references only, not Go's general `html.UnescapeString`.
- Base64.Encode: no contract of its own. Its length and alphabet are stated by the lemmas `EncodeLength` and `EncodeAlphabet`.
- Bytes.Split: its own contract states only that there is at least one piece. Its other properties are the lemmas `JoinSplit`, `SplitJoin`, `SplitCount` and `SplitHasNoLF`.
- Base64.DecodeInto: its frame `dst[n..] == old(dst[n..])` says more than Go promises. Go's `Decode` only promises to write at most `DecodedLen(len(src))` bytes. Its fast paths store whole 8- or 4-byte words, so it may set zero bytes just past the count it returns: for example, `"AAAAAAAA!!!!"` decoded into a 9-byte buffer returns 6 but also zeroes bytes 6 and 7. At main.go:99-100 the buffer starts out all zeros, so the entries are the same either way.
- Base64.DecodeInto: it copies the output of the `Decode` function into the buffer. It does not interleave reading and writing quantum by quantum as Go's decoder does, so a buffer shared with the input is not modelled.
