# srcpit-uri in Dafny

A model of the two layers of the srcpit-uri crate, a recursive-descent parser for pieces of URIs
(RFC 3986), with proofs about them.

- **Character layer** (`src/char_buf.rs`). `CharStream::next` turns bytes into logical characters:
  a byte other than `%` becomes `Ascii(b)`, and `%` with two `is_hex` bytes becomes
  `PctEncoded(hi, lo)`. A bad or truncated escape is an error. The `Char` predicates
  (`is`, `is_pchar`, `is_unreserved`, `is_sub_delim`, `is_gen_delim`, `is_reserved`, `is_digit`,
  `is_hex`) and `Display for Char` complete this layer.
  - Modules: `CharBuf` (definitions and the imperative `CharStream`) and `CharFacts` (properties).
- **Grammar engine** (`src/lib.rs`). There is one `parse_*` function per production. Each pops
  characters from a pushback `TokenBuffer` and pushes them back when the production does not match.
  Each node type (`H16`, `DecOctet`, `Ipv4address`, `Segment`, `Path`, `Query`, `Fragment`) has a
  `Display`.
  - `TokenBuf` holds the buffer as a class. Its `pending` queue sits in front of a `CharStream`. Two
    ghost fields describe everything later pops will see:
    - `unread` is the pushed-back characters, followed by all the decoder will still produce;
    - `ending` is how the input ends after them: cleanly, or at a decode error.
  - `UriNodes` holds the node datatypes, their `Display` renderers and the characters each node
    stands for.
  - `UriGrammar` holds one pure `...Match(u, e)` function per parse function. Given the unread
    characters `u` and the ending `e`, it gives the node and the characters left unread, or the
    decode error.
  - `GrammarFacts` proves what each `...Match` function means:
    - all-or-nothing reading: on no match, nothing is consumed;
    - maximal munch;
    - on a match, the input is exactly the node's text followed by what is left unread.
  - `UriParsers` holds the `parse_*` functions as methods on a `TokenBuffer`. Each ensures that it
    returns what its `...Match` function gives for the old unread view. On success, the new unread
    view is that function's remainder.
  - `RoundTrips` proves two round trips:
    - reading the text of a node gives the node back;
    - the `Display` of a parsed node, followed by the rest, writes the input back.
  - `Examples` restates cases from the crate's tests, and inputs where the code departs from
    RFC 3986.

The code is modelled as written, including where it departs from RFC 3986 and RFC 5234:

- `is_hex` accepts only `A-F` and `a-f`, so `%20` is a decode error. HEXDIG in appendix B.1 of
  RFC 5234 includes digits.
- `is_gen_delim` lists `|` where section 2.2 of RFC 3986 has `/`.
- `parse_dec_octet` goes through `str::parse::<u8>`, so it accepts leading zeros (`012`).
  Section 3.2.2 of RFC 3986 forbids them.
- `parse_path` with nothing to match returns one empty segment, not zero.
- `parse_path_abempty` returns its segments as a path that is not absolute. Its `Display` therefore
  omits the leading `/` it read.
- `parse_path_abempty` and `parse_path_noscheme` never return when a pop finds a clean end of input.
  The model states this as a precondition (`SlashLoopHalts`, `NoschemeHalts`), and
  `Examples.AbemptyLoopsAtEnd` exhibits an input that violates it.

## Model

| member | source | states |
|---|---|---|
| CharBuf.StepAt | src/char_buf.rs:27-53 | one decoder step: end of input exactly when no bytes are left; a character consumes exactly the bytes it encodes (1 or 3) and is decodable; an error happens only after `%`, and it is a truncation exactly when the input ran out before a non-hex byte was seen |
| CharBuf.CharStream.Next | src/char_buf.rs:26-54 | `next` returns end of input without reading, or the character and advances by the bytes it used, or the escape error after the bytes read before it was detected |
| CharFacts.LiteralStep | src/char_buf.rs:49-51 | a byte other than `%` decodes to `Ascii(b)` using one byte |
| CharFacts.EscapeStep | src/char_buf.rs:33-48 | `%` with two hex bytes decodes to `PctEncoded` of those bytes, case kept, using three bytes |
| CharFacts.MalformedEscapes | src/char_buf.rs:34-47 | a non-hex byte in either position is an invalid escape; end of input after `%` or after its first hex byte is a truncated escape |
| CharFacts.HexBytesAreLetters | src/char_buf.rs:189-191 | `is_hex` holds exactly for `A-F` and `a-f`; no digit byte and no digit `Char` is hex |
| CharFacts.DigitEscapeRejected | src/char_buf.rs:33-40 | `%20` is an invalid escape, and decoding it yields no character |
| CharFacts.PctEncodedClasses | src/char_buf.rs:62-134 | an escape is never `is(_)`, digit, hex, unreserved, sub-delim, gen-delim or reserved; it is pct-encoded and pchar |
| CharFacts.PcharExcludesDelimiters | src/char_buf.rs:70-76 | `/`, `?`, `#`, `[`, `]`, the vertical bar and `%` are never pchar; a gen-delim is pchar exactly when it is `:` or `@` |
| CharFacts.ReservedSplit | src/char_buf.rs:97-119 | reserved is gen-delim or sub-delim; the two do not overlap; reserved excludes unreserved and pct-encoded |
| CharFacts.GenDelimsListed | src/char_buf.rs:101-109 | `is_gen_delim` holds exactly for `: ? # [ ] @` and the vertical bar; `/` is not a gen-delim |
| CharFacts.RenderIsLatin1 | src/char_buf.rs:136-148 | rendering characters writes the bytes they encode, each as the character with that code point |
| CharFacts.DecodeYieldsDecodable | src/char_buf.rs:27-53 | every character the decoder yields is a non-`%` literal or an escape of two hex bytes |
| CharFacts.DecodeIsPrefix | src/char_buf.rs:27-53 | re-encoding the decoded characters gives a prefix of the input, and the whole input when no error occurred |
| CharFacts.DecodeThenRender | src/char_buf.rs:136-148 | rendering all characters decoded from error-free bytes writes back exactly those bytes as text |
| CharFacts.EncodeThenDecode | src/char_buf.rs:27-53 | decoding the bytes of decodable characters gives back those characters with a clean end |
| CharFacts.EscapeExamples | src/char_buf.rs:218-230 | `%FF` decodes to one escape and then ends; `%GG` and `%F` are errors |
| TokenBuf.TokenBuffer.constructor | src/char_buf.rs:11-13 | a new buffer has nothing pushed back; its unread view and ending are the decoding of the bytes |
| TokenBuf.TokenBuffer.Pop | src/lib.rs:460 | `pop` returns the first unread character and drops it; at the end it returns `Ok(None)` or the decode error; with characters pushed back it takes the first one without decoding |
| TokenBuf.TokenBuffer.PopDecoded | src/char_buf.rs:11-13 | with nothing pushed back, a pop is one decoder step: the first decoded character, end of input, or the decode error |
| TokenBuf.DecodeNext | src/char_buf.rs:27-53 | one step of the character decoder, as the stream takes it, advances the decoding by exactly its first character or ends it |
| TokenBuf.TokenBuffer.Push | src/lib.rs:465 | `push(c)` puts `c` in front of the pushed-back queue and of the unread view |
| TokenBuf.TokenBuffer.PushTokens | src/lib.rs:262 | `push_tokens(v)` puts `v`, in order, in front of the queue and of the unread view |
| TokenBuf.TokenBuffer.Len | src/tests.rs:9 | `len` is the number of pushed-back characters, at most the number unread |
| UriNodes.RenderH16IsText | src/lib.rs:70-74 | the `Display` of an h16 is the rendering of its four characters |
| UriNodes.RenderIpv4IsText | src/lib.rs:108-112 | the `Display` of an address is the rendering of `d1 "." d2 "." d3 "." d4` |
| UriNodes.RenderSlashText | src/lib.rs:280-285 | the segments after the first render as `"/" segment`, repeated |
| UriNodes.RenderPathIsText | src/lib.rs:274-288 | the `Display` of a path is the rendering of its text: an optional leading `/`, then the segments joined by `/` |
| GrammarFacts.LeadIsLongest | src/lib.rs:242-251 | the bounded lead run of a class is all in the class and is stopped by the bound, the end, or a character outside the class |
| GrammarFacts.RunReadsLead | src/lib.rs:242-251 | the bounded pop loop reads exactly the lead run; it fails exactly when the input ends in a decode error before the run is stopped |
| GrammarFacts.RunStops | src/lib.rs:242-251 | a run of class characters followed by a stop (bound reached, clean end, other character) is what the bounded loop reads |
| GrammarFacts.MunchSpec | src/lib.rs:459-468 | the unbounded pop loop reads a maximal run of the class; it fails exactly when the whole rest is in the class and ends in a decode error |
| GrammarFacts.MunchCons | src/lib.rs:459-468 | one more character of the class in front extends the unbounded loop's run by that character and keeps its failure condition |
| GrammarFacts.MunchStops | src/lib.rs:459-468 | a run of class characters followed by a clean end or another character is what the unbounded loop reads |
| GrammarFacts.SegmentMatchSpec | src/lib.rs:454-470 | `parse_segment` consumes the maximal pchar prefix and stops at a clean end or a non-pchar; it fails only on a decode error inside the run |
| GrammarFacts.SegmentNzMatchSpec | src/lib.rs:472-491 | `parse_segment_nz` gives `None` exactly when the next character is not pchar, consuming nothing; otherwise the maximal non-empty pchar prefix |
| GrammarFacts.SegmentNzNcMatchSpec | src/lib.rs:493-516 | `parse_segment_nz_nc` as above with the class pchar but not `:` |
| GrammarFacts.NoColonIsPcharButColon | src/lib.rs:500-503 | the `nz_nc` class is exactly pchar without `:` |
| GrammarFacts.QueryClassIsPcharSlashQuestion | src/lib.rs:556 | the fragment class is pchar, `/` or `?`, and excludes `#` |
| GrammarFacts.FragmentMatchSpec | src/lib.rs:549-565 | `parse_fragment` consumes the maximal prefix of the fragment class; it fails only on a decode error inside the run |
| GrammarFacts.QueryMatchSpec | src/lib.rs:530-535 | `parse_query` succeeds exactly when `parse_fragment` does, with the same characters and rest |
| GrammarFacts.AccumulateDigits | src/lib.rs:259 | the digit loop of `str::parse::<u8>` gives the decimal value when it is at most 255, else nothing |
| GrammarFacts.ParseU8Digits | src/lib.rs:253-259 | the text of a digit run parses as a `u8` exactly when the run is non-empty and its value is at most 255 |
| GrammarFacts.DecOctetMatchSpec | src/lib.rs:237-266 | `parse_dec_octet` takes the lead run of up to 3 digits when it is non-empty and at most 255, consuming exactly it; otherwise it consumes nothing; it fails only on a decode error within 3 digits |
| GrammarFacts.H16MatchSpec | src/lib.rs:75-103 | `parse_h16` gives `Some` exactly when the next 4 characters are hex, consuming them in order; otherwise nothing is consumed |
| GrammarFacts.DecOctetRest | src/lib.rs:237-266 | after a dec-octet the input is its digits followed by the rest; with none, the rest is the input |
| GrammarFacts.DottedOctetRest | src/lib.rs:143-150 | a `.` then dec-octet step consumes `.` and the digits, or nothing |
| GrammarFacts.DotMatchSpec | src/lib.rs:123-141 | the dot pop keeps a `.` and otherwise pushes the character back; it fails only at a broken end |
| GrammarFacts.DottedOctetMatchSpec | src/lib.rs:143-150 | a `.` then dec-octet step reads a valid dec-octet after `.`, or consumes nothing |
| GrammarFacts.Ipv4MatchSpec | src/lib.rs:114-223 | `parse_ipv4_address` is all-or-nothing: with `None` the unread input is as before; with `Some(a)` exactly the text `d1.d2.d3.d4` of a valid address was consumed |
| GrammarFacts.SlashSegmentsMatchSpec | src/lib.rs:313-323 | the `"/" segment` loop consumes the text of the segments it returns; it stops at a clean end or a character other than `/`; it reads no segment exactly when the next character is not `/` |
| GrammarFacts.SlashLoopHaltsIff | src/lib.rs:313-323 | the loop of `parse_path_abempty` stops exactly when the `"/" segment` repetition does not run into a clean end of input |
| GrammarFacts.AbemptyMatchSpec | src/lib.rs:308-331 | `parse_path_abempty` gives `None` exactly when the next character is not `/`, consuming nothing; else a non-absolute path whose text follows the `/` it read |
| GrammarFacts.NoschemeMatchSpec | src/lib.rs:361-387 | `parse_path_noscheme` gives `None` exactly when the first character is outside the `nz_nc` class; else a non-absolute well-formed path whose text was consumed |
| GrammarFacts.RootlessMatchSpec | src/lib.rs:389-415 | `parse_path_rootless` gives `None` exactly when the first character is not pchar, consuming nothing; else a non-absolute well-formed path whose text was consumed |
| GrammarFacts.AbsoluteMatchSpec | src/lib.rs:333-359 | `parse_path_absolute` gives `None` exactly when the next character is not `/`, consuming nothing; else an absolute path, with one empty segment when nothing pchar follows the `/` |
| GrammarFacts.PathMatchSpec | src/lib.rs:290-306 | `parse_path` always gives a well-formed path whose text was consumed; it is absolute exactly when the first character is `/`; with no match it is one empty segment and nothing is consumed |
| GrammarFacts.PathEmptyMatchSpec | src/lib.rs:417-440 | `parse_path_empty` never consumes; `None` exactly when the next character is pchar; zero segments before a non-pchar; one empty segment at the clean end |
| UriParsers.PopIf | src/lib.rs:459-468 | one turn of the pop loop keeps a character of the class, or pushes the popped character back and signals the stop, or passes on the decode error at the end of the unread characters |
| UriParsers.PopWhile | src/lib.rs:459-468 | the pop loop returns what the unbounded loop function gives, and leaves exactly the rest unread |
| UriParsers.PopUpTo | src/lib.rs:242-251 | the bounded pop loop returns what the bounded loop function gives, and leaves exactly the rest unread |
| UriParsers.ParseSegment | src/lib.rs:454-470 | `parse_segment` returns the segment match and leaves its rest unread |
| UriParsers.ParseSegmentNz | src/lib.rs:472-491 | `parse_segment_nz` returns the segment-nz match and leaves its rest unread |
| UriParsers.ParseSegmentNzNc | src/lib.rs:493-516 | `parse_segment_nz_nc` returns the segment-nz-nc match and leaves its rest unread |
| UriParsers.ParseFragment | src/lib.rs:549-565 | `parse_fragment` returns the fragment match and leaves its rest unread |
| UriParsers.ParseQuery | src/lib.rs:530-535 | `parse_query` returns the query match and leaves its rest unread |
| UriParsers.ParseDecOctet | src/lib.rs:237-266 | `parse_dec_octet`, with the push-back of a rejected run, returns the dec-octet match and leaves its rest unread |
| UriParsers.ParseH16 | src/lib.rs:75-103 | `parse_h16`, with the push-back of a short run, returns the h16 match and leaves its rest unread |
| UriParsers.PopDot | src/lib.rs:123-133 | the dot pop returns the dot match and leaves its rest unread |
| UriParsers.ParseDottedOctet | src/lib.rs:143-150 | a dec-octet after a dot, pushing the dot back when none follows |
| UriParsers.ParseIpv4Address | src/lib.rs:114-223 | `parse_ipv4_address`, with its staged push-backs, returns the IPv4 match and leaves its rest unread |
| UriParsers.PopSlashSegments | src/lib.rs:313-323 | the `"/" segment` loop of `parse_path_abempty`, where it stops, returns the repetition match |
| UriParsers.ParsePathAbempty | src/lib.rs:308-331 | `parse_path_abempty`, where it stops, returns the abempty match and leaves its rest unread |
| UriParsers.ParsePathNoscheme | src/lib.rs:361-387 | `parse_path_noscheme`, where it stops, returns the noscheme match and leaves its rest unread |
| UriParsers.PopSlashSegmentsToEnd | src/lib.rs:396-406 | the loop of `parse_path_rootless`, which stops at the end of input, returns the repetition match |
| UriParsers.ParsePathRootless | src/lib.rs:389-415 | `parse_path_rootless` returns the rootless match and leaves its rest unread |
| UriParsers.ParsePathAbsolute | src/lib.rs:333-359 | `parse_path_absolute` returns the absolute match and leaves its rest unread |
| UriParsers.ParsePath | src/lib.rs:290-306 | `parse_path` returns the path match and leaves its rest unread |
| UriParsers.ParsePathEmpty | src/lib.rs:417-440 | `parse_path_empty` returns the path-empty match and leaves the input unread |
| RoundTrips.SegmentParsesBack | src/lib.rs:454-470 | reading the characters of a pchar segment, followed by a stop, gives that segment and leaves the rest |
| RoundTrips.FragmentParsesBack | src/lib.rs:549-565 | the same for a fragment |
| RoundTrips.QueryParsesBack | src/lib.rs:530-535 | the same for a query |
| RoundTrips.DecOctetParsesBack | src/lib.rs:237-266 | the digits of a valid dec-octet, followed by a non-digit, the clean end, or anything after three digits, read back as that dec-octet |
| RoundTrips.H16ParsesBack | src/lib.rs:75-103 | four hex characters read back as that h16, whatever follows |
| RoundTrips.DottedOctetParsesBack | src/lib.rs:143-150 | `.` and a valid dec-octet read back as that dec-octet |
| RoundTrips.Ipv4ParsesBack | src/lib.rs:114-223 | the text `d1.d2.d3.d4` of a valid address reads back as that address |
| RoundTrips.SlashSegmentsParseBack | src/lib.rs:396-406 | the text of `"/" segment`, repeated, reads back as the same segments when a path stop follows |
| RoundTrips.RootlessParsesBack | src/lib.rs:389-415 | the text of a path whose first segment is not empty reads back as that path-rootless |
| RoundTrips.RootlessReadsNothing | src/lib.rs:394 | where a path stops, `parse_path_rootless` reads nothing |
| RoundTrips.PathParsesBack | src/lib.rs:290-306 | the text of any path `parse_path` can build reads back as that path |
| RoundTrips.EmptyFirstParsesBack | src/lib.rs:333-359 | `""` and `"/"` read back as one empty segment, relative and absolute |
| RoundTrips.NonEmptyFirstParsesBack | src/lib.rs:333-359 | a path with a non-empty first segment reads back, absolute or not |
| RoundTrips.AbsoluteAfterSlash | src/lib.rs:338-350 | after a `/`, `parse_path` gives the rootless segments marked absolute, or one empty absolute segment |
| RoundTrips.PathNeither | src/lib.rs:299-304 | with neither an absolute nor a rootless match, `parse_path` gives one empty segment and consumes nothing |
| RoundTrips.PathRootless | src/lib.rs:297-298 | when the first character is pchar, `parse_path` gives the rootless path |
| RoundTrips.PathDisplayIsInput | src/lib.rs:274-288 | for error-free bytes, the `Display` of the parsed path followed by the rest writes back the input |
| RoundTrips.Ipv4DisplayIsInput | src/lib.rs:108-112 | the same for a parsed IPv4 address (the test's `"12.34.56.78"`) |
| RoundTrips.H16DisplayIsInput | src/lib.rs:70-74 | the same for a parsed h16 |
| RoundTrips.DecOctetDisplayIsInput | src/lib.rs:228-235 | the same for a parsed dec-octet |
| RoundTrips.SegmentDisplayIsInput | src/lib.rs:445-452 | the same for a parsed segment |
| RoundTrips.QueryDisplayIsInput | src/lib.rs:521-528 | the same for a parsed query |
| RoundTrips.FragmentDisplayIsInput | src/lib.rs:540-547 | the same for a parsed fragment |
| RoundTrips.AbemptyDisplayDropsSlash | src/lib.rs:308-331 | the input of `parse_path_abempty` is `/`, then the `Display` of its path, then the rest: the leading `/` is not written |
| RoundTrips.PathBytesRoundTrip | src/lib.rs:274-306 | encoding a path's text, decoding and parsing it gives back the path; its `Display` is the text of those bytes |
| Examples.DecOctetEmpty | src/tests.rs:39-42 | `""` gives no dec-octet |
| Examples.DecOctetStopsAtDot | src/tests.rs:51-61 | `"1."` gives `"1"` and leaves `"."` |
| Examples.DecOctetLargest | src/tests.rs:63-68 | `"255"` gives `"255"` |
| Examples.DecOctetOverflow | src/tests.rs:70-73 | `"256"` gives nothing and leaves all three digits unread |
| Examples.DecOctetThreeDigits | src/tests.rs:75-85 | `"2555"` gives `"255"` and leaves `"5"` |
| Examples.LeadingZeroAccepted | src/lib.rs:253-260 | `"012"` is accepted as a dec-octet, unlike section 3.2.2 of RFC 3986 |
| Examples.FragmentStopsAtBrace | src/tests.rs:127-151 | `"foo}bar"` gives the fragment and the query `"foo"` and leaves `"}bar"` |
| Examples.AbemptyLoopsAtEnd | src/lib.rs:313-323 | the loop of `parse_path_abempty` does not stop on `"/a"` at the clean end |

## Left out

- `new_char_buf` and `From<R> for CharStream` read from a `std::io::Read`. The byte source is a byte
  sequence in the model, and I/O errors are not modelled.
- The internals of the buffer crate (`TokenBuffer`, `ByteStream`, `TokenStream`) are not shown. The
  `TokenBuffer` class states the `pop`/`push`/`push_tokens`/`len` contract their use implies.
- The `Ls32` enum is unused, and the RFC 2396-style byte helpers of `src/char_buf.rs`
  (`is_reserved`, `is_unreserved`, `is_mark`, `is_escaped`) are dead code.
- The parse methods do not state how many characters end up in the pushed-back queue, which the
  tests check with `tb.len()`. Their contracts are about the unread view, which does not depend on
  how it splits between the queue and the decoder.
- UriParsers.ParsePathAbempty: does not model the non-termination of `parse_path_abempty` when a pop
  finds a clean end of input. The precondition `SlashLoopHalts` excludes those inputs.
- UriParsers.ParsePathNoscheme: the same, with the precondition `NoschemeHalts`.
- After a decode error, the parse methods state nothing about the buffer. The source returns through
  `?` without pushing anything back, so what remains unread is not a contract of the code.
- Error message texts are not modelled. The two messages become the two `DecodeError` values.
- The concrete path and IPv4 test inputs are covered by `RoundTrips.PathParsesBack`,
  `RoundTrips.Ipv4ParsesBack` and `GrammarFacts.Ipv4MatchSpec` for all inputs. They are not restated
  one by one.
