# castrum, modelled in Dafny

castrum is a Rust and TypeScript HTTP toolkit. This project models its hand-rolled codecs, the fast paths that must
agree with slow ones, and its small stateful algorithms, and proves what they promise. `dafny verify dfyconfig.toml`
checks everything.

| file | models |
|---|---|
| `Lists.dfy`, `Bytes.dfy`, `Utf8.dfy`, `Decimal.dfy` | sequences, byte strings, hex, little-endian words, UTF-8, decimal text |
| `JsonEscape.dfy`, `JsonText.dfy`, `JsonScan.dfy`, `JsonId.dfy` | the JSON string escaper, JSON grammar, the DOM-free scanners, the unescaper |
| `CookieSign.dfy`, `Session.dfy`, `SessionForms.dfy` | signed cookies, the session envelope, its round trip and every other envelope of its kind |
| `PackedJson.dfy` | the packed JSON token stream, its emitter and its decoder |
| `Calendar.dfy`, `HttpDate.dfy`, `HttpDateParse.dfy` | civil-date arithmetic, HTTP dates as text, the date parser |
| `Release.dfy` | publish order and dependent expansion |
| `HexFast.dfy` | the AVX2 hex decoder, lane by lane |
| `Accept.dfy`, `AcceptNames.dfy`, `AcceptSpecificity.dfy`, `AcceptServer.dfy`, `AcceptByName.dfy` | Accept-Encoding headers, name matching, the two negotiators, each on the stack path and the heap path, and what they answer in terms of names |
| `KeyCache.dfy`, `Semaphore.dfy`, `RateLimiter.dfy`, `Headers.dfy` | key cache and C-string buffer, semaphore, rate limiter, packed headers |

Loops are methods with invariants, proved equal to a function of their inputs; objects are classes whose methods keep
an invariant; the promises are lemmas about those functions and about whole runs.

HMAC, the compilation of HMAC keys, the reading of a quality value and the locale's string comparison are parameters:
the results hold for every such function.

## Where the code and its documentation part

The model follows the code. In each case the exact condition is proved.

- `rust/crypto/base64.rs` says that the kernel tests the raw byte for a digit and that rejection never writes
  partially. The digit test reads the folded byte, so the bytes 0x10 to 0x19 pass in full chunks
  (`HexFast.AgreesWithTable`, `HexFast.StrayChunkIsAccepted`), and chunks before a bad one have been written
  (`HexFast.RejectionIsCleanIff`).
- `rust/util/bytes.rs` calls its comparison case-insensitive. Up to 16 bytes it also takes a carriage return for a
  hyphen, which reaches `x-real-ip` and `x-forwarded-for` (`Headers.LastIsCaseInsensitiveIff`,
  `Headers.RealIpIsReplaced`).
- `rust/http/accept.rs` calls its heap path identical to its stack path. They answer some header differently exactly
  when a lowercase supported name that a header can spell holds U+FFFD (`AcceptSpecificity.PathsAgreeIff`,
  `AcceptServer.ServerPathsAgreeIff`).
- `rust/http/accept.rs` ranks by quality, but takes qualities within 0.0001 of each other as equal and does not refuse
  a quality that parses as NaN (`AcceptSpecificity.OptimalIff`, `AcceptSpecificity.ToleranceHidesQuality`,
  `AcceptSpecificity.NanHidesQuality`).
- `rust/ffi/json.rs` writes counts and lengths as u32; a document past that size does not come back, nor does one with
  an object that repeats a key (`PackedJson.PackedRoundTrip`).
- `rust/crypto/session.rs` embeds the data verbatim, but data with white space around it need not come back
  (`SessionForms.SurroundingSpace`). Behind a tab or a line break the data is cut at its first comma or closing bracket
  and the rest is read as members of the envelope, so that it can even replace the id
  (`SessionForms.LineFeedLosesTheId`).
- `rust/http/http_date.rs` accepts days such as February 30 (`Calendar.DaysThenCivil`, `Calendar.NonDates`), and parsing
  its own output overflows on the first, partial day of the i64 range (`HttpDateParse.RoundTrip`,
  `HttpDateParse.FirstInstantOverflows`).

## Model

| member | source | states |
|---|---|---|
| `Utf8.ValidSplitAtAscii` | rust/json/json_ser.rs:44-53 | Text cut at an ASCII byte is valid UTF-8 exactly when both sides are, so checking gap by gap decides the whole. |
| `Utf8.EncodeFirst` | rust/crypto/session.rs:269-271 | The encoding of a scalar is a well-formed sequence that reads back as it, whatever follows. |
| `Utf8.FirstEncode` | rust/crypto/session.rs:269-271 | And the only one: every well-formed sequence is the encoding of the scalar it reads as. |
| `Utf8.EncodingExamples` | rust/crypto/session.rs:269-271 | Encodings of one to four bytes, in bytes. |
| `Utf8.SubpartIsMaximal` | rust/http/accept.rs:54-58 | One U+FFFD stands for the longest front of a sequence that more bytes could have completed, or for one byte. |
| `Bytes.HexEncode` | rust/util/bytes.rs:93-106 | The written digits are the lowercase hex of the input. |
| `Bytes.UnhexHex` | rust/util/bytes.rs:93-128 | Hex digits decode to the bytes they were made from. |
| `Bytes.HexDigits` | rust/util/bytes.rs:59-90 | The sixteen digits, their values in either case, and that no other byte is one. |
| `Bytes.HexIsLowercase` | rust/util/bytes.rs:91-106 | Written hex holds 0 to 9 and a to f only. |
| `Bytes.Lowercase` | rust/http/accept.rs:113-128 | The 26 capitals become small letters and nothing else changes. |
| `Bytes.LowByteFirst` | rust/ffi/json.rs:95-113 | A written word is its four bytes, the low one first. |
| `Decimal.NoLeadingZero` | rust/crypto/session.rs:33-34 | Printed numbers have no leading zero. |
| `Decimal.ParseSigns` | rust/crypto/session.rs:97-106 | A plus sign is read over; a minus sign counts where negative numbers exist. |
| `Decimal.NotANumber` | rust/crypto/session.rs:97-106 | Other characters and numbers out of range are not read. |
| `JsonEscape.ControlEscapeExtra` | rust/json/json_ser.rs:99-111 | Exactly what escaping adds to a run without special bytes. |
| `JsonEscape.EscapedLen` | rust/json/json_ser.rs:55-138 | The length pass returns the exact length of the escape, for text and for binary input. |
| `JsonEscape.WriteRun` | rust/json/json_ser.rs:166-227 | Bulk copying writes the byte-by-byte escape of a run at the cursor and nothing else. |
| `JsonEscape.WriteText` | rust/json/json_ser.rs:231-264 | Jumping from special byte to special byte writes the byte-by-byte escape and nothing else. |
| `JsonEscape.WriteEscaped` | rust/json/json_ser.rs:143-160 | A buffer sized by the length pass receives exactly the escape, in either mode. |
| `JsonEscape.EscapeIsJsonText` | rust/json/json_ser.rs:72-75 | Whatever the input, the escape is UTF-8 without control bytes. |
| `JsonEscape.EscapeTable` | rust/json/json_ser.rs:166-227 | Which bytes are escaped and how, in bytes. |
| `JsonEscape.EscapeModes` | rust/json/json_ser.rs:143-160 | Text without special bytes is its own escape; of what is not UTF-8 every byte becomes `\u00XX`. |
| `JsonScan.ScanStringEnd` | rust/crypto/session.rs:187-197 | Returns the end that the escape-aware scan defines, on any bytes. |
| `JsonScan.SkipJsonValue` | rust/crypto/session.rs:132-178 | In bounds, with the depth never below zero, on any bytes; returns what the one-bracket count defines. |
| `JsonScan.StringEndExact` | rust/crypto/session.rs:180-197 | On a string body the scan ends exactly at the closing quote. |
| `JsonScan.StringEndIff` | rust/crypto/session.rs:180-197 | On any bytes the end found is the quote behind a string body, and no other is. |
| `JsonScan.LiteralEndsAt` | rust/crypto/session.rs:168-177 | A literal ends at the first comma or closing bracket, or with the input. |
| `JsonScan.ValuePasses` | rust/crypto/session.rs:148-167 | A well-formed value leaves the count of either bracket kind as it found it, at any depth. |
| `JsonScan.SkipExact` | rust/crypto/session.rs:131-178 | The skip ends exactly where a well-formed value ends, at any nesting. |
| `JsonId.ReadHex4` | rust/crypto/session.rs:200-206 | Four hex digits or nothing. |
| `JsonId.DecodeEscape` | rust/crypto/session.rs:232-277 | One escape decodes to the bytes and the width the definition gives, surrogate pairs included. |
| `JsonId.UnescapeId` | rust/crypto/session.rs:223-280 | The loop computes the unescaping of any bytes. |
| `JsonId.UnescapeJoin` | rust/crypto/session.rs:208-222 | Unescaping undoes every mix of raw bytes, short escapes, `\u00XX` bytes, and scalars above 0xFF written as one escape or a surrogate pair. |
| `JsonId.ScalarEscapes` | rust/crypto/session.rs:245-271 | Every scalar above 0xFF, written as the four digits of its code or as those of two surrogates, unescapes to its UTF-8 encoding. |
| `JsonId.ByteEscapes` | rust/crypto/session.rs:251-254 | `\u00XX` is one byte. |
| `JsonId.LetterEscapes` | rust/crypto/session.rs:232-243 | The eight escapes of one letter, in bytes. |
| `JsonId.LoneSurrogate` | rust/crypto/session.rs:255-271 | A surrogate without its partner becomes U+FFFD. |
| `JsonId.OtherEscapesStay` | rust/crypto/session.rs:227-277 | Any other escape, a `\u` without four digits and a last backslash are kept. |
| `JsonId.JoinIsBody` | rust/crypto/session.rs:180-186 | Such text holds no bare quote, so the end scan cannot stop inside it. |
| `JsonId.EscapeInverse` | rust/crypto/session.rs:208-217 | The escaper's output unescapes to the id byte for byte and can stand between quotes, for text and binary ids. |
| `CookieSign.SignCookie` | rust/crypto/cookie_sign.rs:31-40 | Value, dot, 64 hex digits of the tag. |
| `CookieSign.SignInto` | rust/crypto/cookie_sign.rs:16-28 | The same bytes at the front of the buffer, or the buffer untouched when they do not fit. |
| `CookieSign.VerifyInto` | rust/crypto/cookie_sign.rs:45-61 | The verdict and value of the allocating form; untouched on refusal. |
| `CookieSign.VerifyIff` | rust/crypto/cookie_sign.rs:64-75 | Accepted exactly when the input is the value, a dot and 64 hex digits that spell the value's tag. |
| `CookieSign.VerifySign` | rust/crypto/cookie_sign.rs:30-75 | What is signed verifies as the value that was signed, dots in it or not. |
| `Session.Seal` | rust/crypto/session.rs:17-39 | The token is the signed envelope; refused for an empty id or secret. |
| `Session.Open` | rust/crypto/session.rs:50-129 | The scan of any payload ends and returns the fields the definition finds. |
| `Session.OpenIsAuthentic` | rust/crypto/session.rs:41-55 | Whatever opens carries a correct signature of its payload under the secret, and a non-empty id. |
| `SessionForms.OpenAnyForm` | rust/crypto/session.rs:56-128 | A signed envelope opens to what its members set, in any order, with anything but quotes between members and white space around values, the last of each kind winning, unknown members skipped. |
| `SessionForms.IdAlone` | rust/crypto/session.rs:124-128 | Missing data and expiry open as an empty object and 0. |
| `SessionForms.SealedForm` | rust/crypto/session.rs:17-39 | Sealing writes one of these envelopes: an id, a data and an expiry member. |
| `SessionForms.SealedIsText` | rust/crypto/session.rs:17-39 | The token character by character: the envelope, a dot and the tag in lowercase hex, high digit first. |
| `SessionForms.OpenSealed` | rust/crypto/session.rs:14-129 | Opening a sealed token gives back exactly the expiry, the id and the data, for every non-empty id and secret, every i64 expiry and every JSON value. |
| `SessionForms.OpenSealedText` | rust/crypto/session.rs:84-128 | The same with blanks in front of the data and white space behind it: the blanks are dropped, the white space stays with what is read as a literal and is left off otherwise. |
| `SessionForms.SurroundingSpace` | rust/crypto/session.rs:84-113 | With any white space around it the data comes back unchanged exactly if: none in front, and none behind or a literal; or something other than a blank first, and no delimiter in the whole text. |
| `SessionForms.DataCutShort` | rust/crypto/session.rs:107-113 | Data that does not start like a value ends at its first delimiter, and the scan goes on from there with the rest of the data as members. |
| `SessionForms.LineFeedLosesTheId` | rust/crypto/session.rs:84-113 | For every two ids: valid JSON data behind a line feed that holds the second one replaces the first. |
| `Session.OpenedIsReturnable` | rust/crypto/session.rs:84-113 | Whatever the token, returned data never starts with a blank, and holds no delimiter if it starts with other white space. |
| `PackedJson.InternRun` | rust/ffi/json.rs:95-107 | Over any run of interns names stay distinct, the table grows by a suffix, and indices handed out keep naming the same string. |
| `PackedJson.Emitter.InternString` | rust/ffi/json.rs:97-107 | Map and table stay in step; the index is the string's place. |
| `PackedJson.Emitter.EmitString` | rust/ffi/json.rs:115-119 | Appends the marker and the string's index. |
| `PackedJson.Emitter.EmitKey` | rust/ffi/json.rs:122-126 | Appends the key marker and the key's index. |
| `PackedJson.Emitter.Visit` | rust/ffi/json.rs:210-302 | The tree grows by the tokens of the value, the table by its new strings. |
| `PackedJson.Emitter.VisitItems` | rust/ffi/json.rs:313-323 | The element loop emits the elements' tokens in order. |
| `PackedJson.Emitter.VisitMembers` | rust/ffi/json.rs:326-340 | The member loop emits keys and values in order. |
| `PackedJson.TokensStable` | rust/ffi/json.rs:80-107 | Tokens emitted against a table mean the same against every later one. |
| `PackedJson.ParsePacked` | rust/ffi/json.rs:366-399 | Returns the exact size and writes the stream when it fits, else leaves the buffer alone. |
| `PackedJson.TokenBytes` | rust/ffi/json.rs:57-77 | The markers in numbers: 0 null, 1 false, 2 true, 3 number, 4 string, 5 and 7 around arrays, 6 and 8 around objects. |
| `PackedJson.MemberBytes` | rust/ffi/json.rs:65-77 | Each member is 9, the key's index and the value. |
| `PackedJson.TrueOnTheWire` | rust/ffi/json.rs:57-70 | The stream of `true`, byte for byte. |
| `PackedJson.DocumentOnTheWire` | rust/ffi/json.rs:57-126 | The stream of a document with an object, an array and a repeated string, byte for byte. |
| `PackedJson.DecodeTokens` | rust/ffi/tests.rs:376-411 | Decoding a value's tokens gives the value, objects as maps in which the last member of a key counts, and consumes exactly them. |
| `PackedJson.DecodeRecords` | rust/ffi/tests.rs:412-419 | Decoding the table gives the strings and consumes exactly it. |
| `PackedJson.PackedRoundTrip` | rust/ffi/json.rs:55-66 | Decoding the packed stream gives back the tree exactly when every count and length fits 32 bits and no object repeats a key. |
| `PackedJson.SeenKeeps` | rust/ffi/tests.rs:398-408 | The decoder's maps keep every member exactly when no object, at any depth, repeats a key. |
| `PackedJson.LongTextIsLost` | rust/ffi/json.rs:97-107 | A string of 2^32 bytes does not come back. |
| `PackedJson.RepeatedKeyIsLost` | rust/ffi/tests.rs:398-408 | Of two members with one key the second is decoded. |
| `Calendar.CivilThenDays` | rust/http/http_date.rs:20-47 | Every integer day is a valid Gregorian date, and that date's day number is the day. |
| `Calendar.DaysThenCivil` | rust/http/http_date.rs:35-47 | Valid dates are accepted, and of what is accepted exactly the valid dates come back. |
| `Calendar.NonDates` | rust/http/http_date.rs:35-47 | An accepted triple that is no date comes back as the day, one to three, by which it is past the end of its month, in the next month. |
| `Calendar.FebruaryThirty` | rust/http/http_date.rs:35-47 | February 30, 2023 has the day number of March 2. |
| `Calendar.CivilSuccessor` | rust/http/http_date.rs:20-33 | Day z + 1 is the calendar successor of day z under the leap-year rule. |
| `Calendar.Epoch` | rust/http/http_date.rs:20-33 | Day 0 is 1970-01-01. |
| `Calendar.EraIsFloor` | rust/http/http_date.rs:23-41 | Both adjusted truncating divisions are floor divisions, below zero too. |
| `Calendar.YearOfEraExact` | rust/http/http_date.rs:25-27 | The year formula is right on every day of the era. |
| `HttpDate.PartsAreRight` | rust/http/http_date.rs:71-89 | The parts are a valid date and time that add up to the instant, and the weekday moves on daily from Thursday at the epoch. |
| `HttpDate.WritePadded` | rust/http/http_date.rs:52-57 | Writes exactly the low digits, zero-padded, and nothing else. |
| `HttpDate.WriteParts` | rust/http/http_date.rs:94-140 | 29 bytes of the fixed layout for years 0 to 9999, or an error with the buffer untouched. |
| `HttpDate.HttpDateFromSecs` | rust/http/http_date.rs:144-165 | The fixed-width writer and the formatting fallback print the same text. |
| `HttpDate.HttpDateInto` | rust/http/http_date.rs:170-173 | The same text in the caller's buffer, or the matching error. |
| `HttpDate.ImfFixdateExample` | rust/http/http_date.rs:236-239 | The standard's own example, byte for byte. |
| `HttpDate.DateTextIs` | rust/http/http_date.rs:15-140 | For every instant the text in bytes: the name of the weekday and of the month, and two digits each for day, hour, minute and second. |
| `HttpDate.YearInBytes` | rust/http/http_date.rs:94-165 | Years are padded to four characters, the sign included. |
| `HttpDateParse.RoundTrip` | rust/http/http_date.rs:142-198 | For every i64 instant the printed date parses to the same second, unless the start of its day is below the i64 range. |
| `HttpDateParse.FirstInstantOverflows` | rust/http/http_date.rs:142-198 | The date printed for the least i64 instant overflows the parser. |
| `HttpDateParse.ParseYear` | rust/http/http_date.rs:153-183 | The padded year reads back, negative and five-digit years included. |
| `HttpDateParse.MonthFound` | rust/http/http_date.rs:185-188 | Each month name is found at its own place. |
| `HttpDateParse.MonthInAnyCase` | rust/http/http_date.rs:185-188 | The twelve names, spelled out, in any case are found at their places. |
| `HttpDateParse.TextIsRead` | rust/http/http_date.rs:175-198 | A date in bytes, with any weekday word and the month in any case, is read as its instant, or refused exactly if the day, hour, minute or second is out of range. |
| `Release.PublishOrder` | scripts/release.ts:414-442 | A permutation: at every step the least ready name by code units, then the rest sorted. |
| `Release.Announce` | scripts/release.ts:426-435 | After the inner loop every count is what is left to publish, and exactly the newly ready packages were queued. |
| `Release.GreedyIsTopological` | scripts/release.ts:413-436 | Every ordered package comes behind all its dependencies, each once. |
| `Release.LeftoversReachCycles` | scripts/release.ts:438-441 | The leftovers are exactly the packages from which a dependency cycle can be reached. |
| `Release.LeastDependencyOrder` | scripts/release.ts:413-442 | Without cycles the order is complete, dependency-first, and lexicographically least by code units among all such orders. |
| `Release.SortSorts` | scripts/release.ts:423-440 | By a total preorder the sort sorts. |
| `Release.SortIsStable` | scripts/release.ts:423-440 | And keeps the order of what compares equal. |
| `Release.LessIsBefore` | scripts/release.ts:423-424 | Names are compared by code units: where two part, the smaller has the smaller unit or ends. |
| `Release.ExpandDependents` | scripts/release.ts:457-478 | Exactly the packages in every set that holds the selection and is closed under depending on a member, the least such set, at increasing places of the input; ends on cyclic graphs too. |
| `Release.IndexDependents` | scripts/release.ts:458-465 | The index lists, for each dependency, exactly the packages that have it. |
| `HexFast.ChunkExact` | rust/crypto/base64.rs:284-343 | The kernel accepts a chunk exactly when all characters are digits or strays, and puts each pair's byte in its place. |
| `HexFast.GatherAt` | rust/crypto/base64.rs:329-341 | The permutation undoes the pack's interleaving. |
| `HexFast.Decode` | rust/crypto/base64.rs:354-369 | The verdict and the whole buffer, on success and on rejection, wherever the chunk boundaries fall. |
| `HexFast.HexDecodeInto` | rust/crypto/base64.rs:229-251 | The error cases, and that only the needed bytes of the buffer change. |
| `HexFast.AgreesWithTable` | rust/crypto/base64.rs:265-298 | The verdict is the digit table's unless the full chunks hold digits and at least one byte 0x10 to 0x19 and nothing else, with digits behind them; digits decode as in the table. |
| `HexFast.StrayChunkIsAccepted` | rust/crypto/base64.rs:289-298 | Sixty-four bytes 0x10 are accepted, as zeros. |
| `HexFast.RejectionIsCleanIff` | rust/crypto/base64.rs:268-361 | Rejection leaves the buffer alone exactly when the first chunk is bad or there is none. |
| `HexFast.DirtyRejection` | rust/crypto/base64.rs:354-369 | Sixty-four zeros and `zz` are rejected with 32 bytes of the buffer overwritten. |
| `Accept.Trim` | rust/util/bytes.rs:387-400 | Blanks off both ends. |
| `Accept.ParseHeap` | rust/http/accept.rs:31-62 | The named elements in order, decoded lossily and lowercased. |
| `Accept.ParseRefs` | rust/http/accept.rs:80-111 | The same elements raw, or none exactly when they exceed the buffer. |
| `Accept.HeaderReads` | rust/http/accept.rs:34-60 | A header of well-formed elements is read as their names and weights, whatever blanks it holds. |
| `Accept.NamelessIsSkipped` | rust/http/accept.rs:34-53 | Elements of blanks, or with a parameter but no name, are passed over. |
| `Accept.BlankBytes` | rust/util/bytes.rs:387-400 | The five blanks, in bytes. |
| `AcceptNames.NameEqSupported` | rust/http/accept.rs:118-128 | Equality of the lowercased name. |
| `AcceptNames.NamesAgreeIff` | rust/http/accept.rs:54-128 | Raw and lossily decoded comparison match the same names exactly when the supported name is not a lowercase one with U+FFFD. |
| `AcceptSpecificity.NegotiateRefs` | rust/http/accept.rs:202-242 | The stack path's choice. |
| `AcceptSpecificity.NegotiateHeap` | rust/http/accept.rs:154-199 | The heap path's choice. |
| `AcceptSpecificity.Negotiate` | rust/http/accept.rs:136-150 | Which path answers, and that the answer is the heap path's for every header when no supported name is confusable. |
| `AcceptSpecificity.PathsAgree` | rust/http/accept.rs:152-242 | Stack path and heap path give the same answer to every header if no lowercase supported name that a header can spell holds U+FFFD. |
| `AcceptSpecificity.PathsAgreeIff` | rust/http/accept.rs:136-242 | They agree on every header exactly when no lowercase supported name that a header can spell holds U+FFFD. |
| `AcceptSpecificity.DecidingIs` | rust/http/accept.rs:162-181 | The entry that decides is the most specific, and of those the earliest. |
| `AcceptSpecificity.ChosenIsOptimal` | rust/http/accept.rs:130-198 | Unless two candidates are crossed the answer is the best by specificity, quality and client order; entries of quality 0 are skipped. |
| `AcceptSpecificity.OptimalIff` | rust/http/accept.rs:130-198 | The answer is the best for every list of the supported names exactly when no two are crossed: equally specific, and one NaN, or the earlier entry lower by at most the tolerance. |
| `AcceptSpecificity.ThreeDecimalsSeparate` | rust/http/accept.rs:190-191 | With three decimals none are crossed, so the answer is the best. |
| `AcceptSpecificity.ToleranceHidesQuality` | rust/http/accept.rs:190-191 | `gzip;q=0.5, br;q=0.50005` is answered with gzip. |
| `AcceptSpecificity.NanHidesQuality` | rust/http/accept.rs:179-191 | `gzip;q=nan, br;q=1` is answered with whichever is listed first. |
| `AcceptServer.Wildcard` | rust/http/accept.rs:272-278 | The highest wildcard quality, NaN aside, or -1 when there is no wildcard. |
| `AcceptServer.ExplicitIs` | rust/http/accept.rs:281-289 | The first entry that names an encoding gives its quality. |
| `AcceptServer.ServerChosen` | rust/http/accept.rs:244-299 | The first supported encoding of the highest positive effective quality; NaN wins only if nothing acceptable is listed before it. |
| `AcceptServer.ServerRefs` | rust/http/accept.rs:268-299 | The stack path's choice by server preference. |
| `AcceptServer.ServerHeap` | rust/http/accept.rs:302-330 | The heap path's choice by server preference. |
| `AcceptServer.NegotiateServer` | rust/http/accept.rs:251-265 | Which path answers, and that the answer is the heap path's for every header when no supported name is confusable. |
| `AcceptServer.ServerPathsAgree` | rust/http/accept.rs:267-330 | Both paths give the same answer under the same condition. |
| `AcceptServer.ServerPathsAgreeIff` | rust/http/accept.rs:251-330 | Both paths agree on every header exactly under the same condition. |
| `AcceptServer.AsciiPathsAgree` | rust/http/accept.rs:31-330 | With ASCII supported names both negotiators answer every header alike on both paths. |
| `AcceptByName.DecidedByName` | rust/http/accept.rs:162-181 | About an encoding decides the first entry that names it, and the first `*` only if none does, on both paths. |
| `AcceptByName.RefusedIsNotAnswered` | rust/http/accept.rs:178-184 | An encoding whose own first entry has quality 0 is never answered. |
| `AcceptByName.NamedComesFirst` | rust/http/accept.rs:185-196 | An encoding only a wildcard admits is answered only if every supported one that is named is refused. |
| `AcceptByName.BestByName` | rust/http/accept.rs:130-242 | With three decimals the answer, in names: exact over wildcard, then higher quality, then earlier entry; none if no quality is positive; the first supported without entries. |
| `AcceptByName.EffectiveByName` | rust/http/accept.rs:270-290 | By server preference the first entry that names an encoding counts, else the highest `*`. |
| `AcceptByName.ServerBestByName` | rust/http/accept.rs:244-330 | And the answer is the first supported encoding of the highest positive quality, or none. |
| `AcceptByName.WithoutEntries` | rust/http/accept.rs:146-262 | Without entries one negotiator answers with the first supported encoding and the other with none. |
| `AcceptByName.EmptyHeader` | rust/http/accept.rs:34-39 | The empty header has no entries. |
| `KeyCache.Cache.WithKey` | rust/ffi/util.rs:75-95 | Returns what the callback returns on a freshly compiled key; the cache holds the 16 most recently used distinct secrets in order, each with its own key. |
| `KeyCache.UseSecret` | rust/ffi/util.rs:77-92 | What one more call does to the list of recent secrets cut to capacity. |
| `KeyCache.RecentIsDistinct` | rust/ffi/util.rs:24-38 | The recency list holds exactly the secrets used, each once. |
| `KeyCache.RecentInOrder` | rust/ffi/util.rs:24-38 | The earlier in the recency list, the later the last use. |
| `KeyCache.HeldAreSixteen` | rust/ffi/util.rs:24-38 | The cache holds the first sixteen of that list. |
| `KeyCache.CStringBuffer.Return` | rust/ffi/util.rs:175-193 | The string read back is the one written up to its first NUL, whatever earlier calls left in the buffer. |
| `Semaphore.EveryRunIsSound` | bench/http/load.ts:1516-1544 | In every interleaving: count is the slots held and within the maximum, nobody waits while a slot is free, grants are in order of asking, freed slots were granted and none is freed twice. |
| `Semaphore.FreedExactlyOnce` | bench/http/load.ts:1588-1607 | In every interleaving a flow that calls `releaseSlot`, once or more often, frees its slot exactly once, and one that does not, never. |
| `Semaphore.NobodyIsForgotten` | bench/http/load.ts:1533-1540 | When every flow that got a slot has called `releaseSlot`, nobody waits and all slots are free. |
| `Semaphore.Pool.Acquire` | bench/http/load.ts:1525-1533 | A slot at once exactly when one is free. |
| `Semaphore.Pool.Release` | bench/http/load.ts:1535-1542 | The oldest waiter gets the slot, or the count drops. |
| `Semaphore.Pool.ReleaseSlot` | bench/http/load.ts:1591-1607 | However often it is called, a flow frees its slot once. |
| `RateLimiter.Limiter.DoCheck` | scripts/select-native.ts:272-284 | The verdict of the key's own run; no other key's window changes. |
| `RateLimiter.KeysAreIndependent` | scripts/select-native.ts:270-274 | A key's window depends on its own checks only. |
| `RateLimiter.AtMostLimitPerWindow` | scripts/select-native.ts:274-283 | Between resets a key gets at most `limit` allowed checks, a fractional limit rounded up. |
| `RateLimiter.VerdictIsExact` | scripts/select-native.ts:273-283 | Allowed exactly while the window has seen fewer than `limit` allowed checks; `limit` less those and this one remain, if that is positive. |
| `RateLimiter.ResetsAreApart` | scripts/select-native.ts:274-276 | Resets of a key are at least a window apart. |
| `RateLimiter.AtMostTwiceTheLimit` | scripts/select-native.ts:266-285 | Any half-open interval of one window length holds at most 2 * limit - 1 allowed checks of a key, the limit rounded up. |
| `RateLimiter.BoundIsMet` | scripts/select-native.ts:266-285 | For every limit and window a run that meets this bound. |
| `Headers.AsciiEqShort` | rust/util/bytes.rs:31-52 | Up to 16 bytes the words compare byte by byte with bit 0x20 set. |
| `Headers.ComparesEqualIff` | rust/util/bytes.rs:23-55 | What comparing equal to a tracked name means, exactly. |
| `Headers.CaseInsensitiveIff` | rust/util/bytes.rs:23-55 | It is case-insensitive equality exactly when no carriage return stands in for a hyphen. |
| `Headers.CarriageReturnIsTaken` | rust/http/headers.rs:120-122 | A name for which it is not. |
| `Headers.DispatchIsPlain` | rust/http/headers.rs:99-137 | First byte and length lose nothing: the dispatch finds exactly the field whose name compares equal. |
| `Headers.PackedIsRead` | rust/http/headers.rs:44-97 | A packed list is read back, or refused for its count; what follows it is ignored. |
| `Headers.ListedIff` | rust/http/headers.rs:44-97 | A list is read exactly from the buffers that start with its packed form within the maximum; a buffer of less than two bytes is an empty list. |
| `Headers.CutRecord` | rust/http/headers.rs:68-95 | A record that is cut short is refused for the part that is missing. |
| `Headers.LengthsLowByteFirst` | rust/http/headers.rs:57-72 | Counts and name lengths are two bytes, the low one first. |
| `Headers.NamesInText` | rust/http/headers.rs:104-137 | The seven tracked names. |
| `Headers.FlagsByName` | rust/http/headers.rs:10-137 | The five names with a flag, and the two looked for on OPTIONS only. |
| `Headers.Parse` | rust/http/headers.rs:47-141 | An error exactly for a bad list, else the last value of every tracked name, preflight names on OPTIONS only, with the flags to match. |
| `Headers.LastIsCaseInsensitiveIff` | rust/http/headers.rs:44-137 | The scanner picks the last case-insensitive occurrence of a name exactly when every header that stands in for it with carriage returns has a genuine one behind it. |
| `Headers.LastIsCaseInsensitive` | rust/http/headers.rs:44-137 | So it does where no name holds a carriage return. |
| `Headers.LastIsAt` | rust/http/headers.rs:104-137 | The value kept for a name is that of the header picked. |
| `Headers.RealIpIsReplaced` | rust/http/headers.rs:47-122 | For every two values: a packed list in which a name with a carriage return replaces the genuine `x-real-ip`. |

## Left out

- JsonEscape.EscapedLen: the word-at-a-time ASCII test is a plain test of every byte, and the saturating product is unbounded.
- PackedJson.PackedRoundTrip: the order of an object's members is not compared; numbers are opaque eight-byte values; the JSON parser that drives the visitor is not part of this model.
- HttpDate.PartsAreRight: integers are unbounded; the intermediate values of an i64 instant stay far inside 64 bits.
- HexFast.Decode: the tail engine and the portable fallback are a library; they are taken to validate first and then decode by the digit table.
- AcceptSpecificity.OptimalIff: quality values are reals or NaN, so rounding to f32 is not covered.
- Release.PublishOrder: the locale's comparison of leftovers is a parameter; package discovery, manifests, git and npm are not modelled.
- KeyCache.Cache.WithKey: wiping of the evicted secret's bytes is not modelled.
- Semaphore.EveryRunIsSound: promises and the scheduling of continuations are reduced to the order of acquire and release calls.
- RateLimiter.AtMostTwiceTheLimit: clocks and limits are reals, so rounding of doubles, NaN and infinities are not covered.
- Headers.Parse: the seven fields are a map and the flag byte a set.
- The boolean cookie check, the other exports of `rust/ffi`, ETags, media types, method and MIME tables are not modelled; they are short decisions and finite tables.
- Raw pointers, aliasing of buffers, panics across the C boundary and threads: buffers are arrays or sequences.
- AEAD, argon2, bcrypt, PBKDF2, Ed25519, JWT, base64 and checksum engines: wrappers over libraries.
- Benchmarks, reports, release I/O and command-line parsing.
