# go-dns-resolver in Dafny

A model of the core of go-dns-resolver, a small DNS stub resolver written in
Go, with proofs about it. The model covers:

- the RFC 1035 wire codec of package `dns`: the 12-byte header (section
  4.1.1), the question entry (section 4.1.2), domain names as length-prefixed
  labels with the compression pointers of section 4.1.4, and the resource
  record (section 4.1.3);
- the record-data formatter `RDataString` for A, AAAA (RFC 3596), CNAME, NS,
  MX and TXT;
- the resolver pipeline: `buildQuery`, `parseResponse`, `parseQuestion`, and
  the order of the checks in `Resolve`;
- the command-line helpers `getStatus` and `getFlags`, and the choice of the
  record type from the command line.

The project has one module per concern:

| file | module | models |
|---|---|---|
| `wire.dfy` | `Wire` | fixed-width integers, big-endian reads and writes, `Result`/`Option`, and "these bytes are stored there" (`StoredAt`) |
| `text.dfy` | `Text` | `strings.Split`/`strings.Join` on one separator, and `%d`/`%x` rendering with their inverses |
| `message.dfy` | `Message` | `dns/message.go`: header and question packing, `EncodeDomainName`, `DecodeDomainName` |
| `records.dfy` | `Records` | `dns/records.go`: record types and their names, `ParseResourceRecord`, `RDataString` |
| `resolver.dfy` | `Resolver` | `dns/dns.go`: `parseQuestion`, `parseResponse`, `buildQuery`, `Resolve` |
| `cli.dfy` | `Cli` | `cmd/dsn-resolver/main.go`: `getStatus`, `getFlags`, the record-type switch |

The model follows the code's own form:

- Fixed-layout conversions are functions.
- `EncodeDomainName`, `DecodeDomainName`, the AAAA and TXT loops of
  `RDataString` and the two loops of `parseResponse` are methods with loops.
- Each method is proved equal to a function that states what it computes.
  The properties are proved about those functions.

Network I/O and randomness are arguments:

- `Resolve` takes the round trip (`sendQuery`) as a function `exchange`.
- `BuildQuery` takes the query ID that the source draws from `crypto/rand`.

Domain names are Go strings, that is byte strings, and are modelled as
`seq<byte>`. Text produced for display is a Dafny `string`.

## Model

| member | source | states |
|---|---|---|
| Message.PackHeader | dns/message.go:36-43 | the packed header is exactly 12 bytes: ID, flags, QDCOUNT, ANCOUNT, NSCOUNT and ARCOUNT, each big-endian, in that order |
| Message.UnpackHeader | dns/message.go:76-87 | fails exactly on inputs shorter than 12 bytes; otherwise returns the header whose packing is the first 12 bytes |
| Message.HeaderRoundTrip | dns/message.go:36-87 | unpacking a packed header followed by any bytes gives the header back |
| Message.UnpackHeaderIgnoresTail | dns/message.go:78-82 | bytes after the first 12 do not change the unpacked header |
| Message.EncodeLabels | dns/message.go:99-107 | the labels are produced exactly when no segment is longer than 63 bytes; their length is the segments' total length plus one length byte per segment |
| Message.EncodeName | dns/message.go:97-109 | encoding fails exactly when some dot-separated segment is longer than 63 bytes; otherwise the output is two bytes longer than the name and ends with a zero byte |
| Message.EncodeDomainName | dns/message.go:97-109 | the segment-by-segment buffer loop returns exactly EncodeName, error included |
| Message.EncodeJoined | dns/message.go:97-109 | a name joined from dot-free segments of at most 63 bytes encodes to each segment prefixed by its length, then a zero byte |
| Message.EncodeExample | dns/message.go:96 | "example.com" encodes to [7]example[3]com[0] |
| Message.PackQuestion | dns/message.go:57-70 | fails exactly when the name cannot be encoded; otherwise the encoded name, then the type and the class big-endian, 6 bytes longer than the name |
| Message.PointerTarget | dns/message.go:146 | a pointer's target is the two bytes big-endian with the top two bits masked off, a 14-bit offset |
| Message.DecodeName | dns/message.go:122-173 | a decoded name occupies at least one byte from the start offset, all inside the message |
| Message.DecodeDomainName | dns/message.go:122-173 | the loop over length bytes, recursing with one jump less on a pointer, returns exactly DecodeName |
| Message.DecodeFirstByte | dns/message.go:129-163 | at the byte decoding starts from: it fails when the offset is past the end, when a pointer there lacks its second byte, or when a label there runs past the end; a zero byte there is the empty name of one byte |
| Message.DecodeAfterLabels | dns/message.go:128-166 | the same at the byte reached after any number of uncompressed labels: the same three errors, whatever labels were read before, and a zero byte there ends the name with those labels joined by dots, counting the bytes read |
| Message.DecodeOverrunExample | dns/message.go:161-163 | [3]abc[5]x fails on its second label with the label-overrun error for length 5 |
| Message.DecodeMalformedExample | dns/message.go:143-145 | [1]a[0xC0] fails with a malformed pointer at offset 2 |
| Message.DecodeEncoded | dns/message.go:122-173 | wherever a name with segments of 1 to 63 bytes is written uncompressed, decoding there returns that name and consumes exactly its encoding, two bytes more than the name |
| Message.NameRoundTrip | dns/message.go:97-173 | DecodeDomainName(EncodeDomainName(n), 0) returns n and the length of the encoding |
| Message.DecodeCompressed | dns/message.go:142-158 | labels followed by a pointer decode to those labels joined with the name at the pointer's target; the count consumed is the labels plus the two pointer bytes, whatever the target's length; a failure at the target is returned wrapped |
| Message.DecodeMoreJumps | dns/message.go:148 | the jump budget only decides when decoding gives up: any result other than running out of jumps is the same under every larger budget |
| Message.DecodeSameBytes | dns/message.go:122-173 | decoding depends only on the bytes it reads: if the name at one offset fits in a stretch of bytes, an identical stretch at another offset decodes to the same name and count |
| Message.ScanLabels | dns/message.go:128-166 | a scan of labels that succeeds ends after its start and inside the message |
| Message.DecodeAt | dns/message.go:122-173 | DecodeDomainName as the package calls it, with a jump budget of the message length plus one: a decoded name occupies at least one byte from the offset, all inside the message |
| Text.Split | dns/message.go:99 | strings.Split on one separator gives at least one part, and no part contains the separator |
| Text.JoinSplit | dns/message.go:99 | joining the parts of a split with the same separator gives the input back |
| Text.SplitJoin | dns/records.go:187 | splitting a join of separator-free parts gives the parts back, so the dotted quad, the AAAA groups, the byte list of the placeholder and the flag names can be read apart (TXT text cannot: a character-string may hold spaces) |
| Text.JoinLength | dns/message.go:172 | a join is as long as its parts together plus one separator between each two |
| Text.Digits | dns/records.go:179 | `%d` and `%x` of a number: at least one digit, each a digit of the base, with a leading '0' exactly for zero |
| Text.DigitsRoundTrip | dns/records.go:179-185 | the digits read back in their base as the number |
| Text.DigitsWidth | dns/records.go:185 | a number below base^width has at most width digits, so `%x` of a 16-bit word has at most four |
| Records.TypeString | dns/records.go:46-63 | the name of a type starts with a letter other than 'T', or is "TXT", exactly for the six named types |
| Records.TypeStringUnknown | dns/records.go:60-61 | any other type is named "TYPE" followed by its value in decimal, which reads back as the value |
| Records.TypeStringInjective | dns/records.go:46-63 | different types have different names |
| Records.RecordLayout | dns/records.go:124-153 | each error happens exactly when its step would read too far (owner name, 10 fixed bytes, RDLENGTH bytes of data); on success the fields are read big-endian at 0, 2, 4 and 8 after the name, the data is the RDLENGTH bytes after the fixed part, and the offset returned is absolute, just after the data |
| Records.RecordRoundTrip | dns/records.go:124-153 | a record written with an uncompressed owner name is read back whole, and the offset returned is the first byte after it |
| Records.TruncatedRecord | dns/records.go:144-146 | a record missing its last data byte is refused with the data-overrun error, not read short |
| Records.IndexFrom | dns/records.go:192 | bytes.Index: the least position where the data occurs, or none when it occurs nowhere |
| Records.HexGroups | dns/records.go:184-186 | one group per 16-bit word: each group has one to four hex digits and reads back in base 16 as its word |
| Records.RDataText | dns/records.go:175-227 | RDataString as a function: the text is empty only for TXT, CNAME or NS records (no character-string, or a name that decodes as the root); each case is stated by the lemmas below |
| Records.RDataString | dns/records.go:175-227 | the method, with the AAAA and TXT loops, returns exactly RDataText |
| Records.HexParts | dns/records.go:183-186 | the AAAA loop yields exactly HexGroups: the k-th part is the k-th 16-bit word in hex |
| Records.TxtTexts | dns/records.go:212-223 | the TXT loop yields exactly the quoted character-strings that TxtStrings reads |
| Records.TxtStrings | dns/records.go:212-224 | each character-string read is shorter than 256 bytes, its length being one byte |
| Records.Quote | dns/records.go:218 | `%q`: the text between two double quotes |
| Records.ByteList | dns/records.go:226 | `%v` of the data: text between '[' and ']' |
| Records.ByteListRoundTrip | dns/records.go:226 | inside the brackets, the text splits on spaces into one part per data byte, each reading back in decimal as its byte |
| Records.Unsupported | dns/records.go:226 | the placeholder ends with the byte list of the data and a closing parenthesis |
| Records.Placeholder | dns/records.go:176-226 | the placeholder is shown for a type without a rendering, A data that is not 4 bytes, AAAA data that is not 16 and MX data of 2 bytes or fewer |
| Records.PlaceholderUndecodable | dns/records.go:189-226 | the placeholder is shown too when the name at the found CNAME or NS data, or two bytes after the found MX data, does not decode |
| Records.DataNotFound | dns/records.go:189-206 | data that occurs nowhere in the message shows as "invalid MX data" for MX (longer than 2 bytes) and "invalid CNAME/NS data" for CNAME and NS |
| Records.DottedQuad | dns/records.go:177-180 | the text of a four-byte A record splits on '.' into four parts, the i-th of which reads back as the i-th byte |
| Records.DottedQuadExample | dns/records.go:177-180 | the A data [93,184,216,34] shows as "93.184.216.34" |
| Records.ColonGroups | dns/records.go:181-188 | the text of a 16-byte AAAA record splits on ':' into eight groups, the k-th of which reads back in base 16 as the k-th 16-bit word |
| Records.AliasFromAnyCopy | dns/records.go:189-199 | CNAME and NS data is decoded at its first occurrence in the message; if the name at some occurrence fits inside the data, that is the name shown, whichever occurrence comes first |
| Records.AliasWithoutMessage | dns/records.go:192-195 | against an empty message, CNAME or NS data that is not empty shows as "invalid CNAME/NS data" |
| Records.MxFromAnyCopy | dns/records.go:200-211 | MX data shows as its preference in decimal, a space and the exchange decoded two bytes after the data's first occurrence; if the exchange at some occurrence fits inside the data, that is the one shown |
| Records.MxWithoutMessage | dns/records.go:202-206 | against an empty message, MX data longer than 2 bytes shows as "invalid MX data" |
| Records.MxExample | dns/records.go:200-211 | the MX data [0,10,2,'m','x',0], rendered against itself, shows as "10 mx" |
| Records.TxtRoundTrip | dns/records.go:212-224 | reading TXT data recovers exactly the character-strings it was written from |
| Records.TxtEdges | dns/records.go:212-224 | empty TXT data shows as empty text, and so does data whose first length byte reaches past its end |
| Resolver.Rcode | dns/dns.go:233 | the response code is below 16 and differs from the flags by a multiple of 16: the low four bits |
| Resolver.ParseQuestion | dns/dns.go:282-297 | fails on the name exactly when the name cannot be decoded; on success the type and class are read big-endian after the name, and the count is the name's bytes plus 4 |
| Resolver.QuestionRoundTrip | dns/dns.go:282-297 | a packed question is read back, with a count equal to its length |
| Resolver.QuestionsFrom | dns/dns.go:245-252 | the question loop yields exactly the remaining count of questions, or an error naming the question that failed |
| Resolver.ParseQuestions | dns/dns.go:245-252 | the question loop as a method returns exactly QuestionsFrom |
| Resolver.QuestionsRoundTrip | dns/dns.go:245-252 | a written question section is read back and the loop ends just after it |
| Resolver.AnswersAsWritten | dns/dns.go:255-262 | the answer loop as written yields the remaining count of records, or an error naming the answer that failed |
| Resolver.ParseAnswersAsWritten | dns/dns.go:255-262 | the answer loop as a method, adding ParseResourceRecord's absolute offset to the current one, returns exactly AnswersAsWritten |
| Resolver.AnswerStep | dns/dns.go:255-262 | one turn of the answer loop as written: the record read is appended and the next is read at offset plus the returned offset |
| Resolver.Answers | dns/dns.go:255-262 | the corrected answer loop yields the remaining count of records, or an error naming the answer that failed |
| Resolver.AnswersRoundTrip | dns/dns.go:255-262 | the corrected answer loop reads back records written one after the other |
| Resolver.Preamble | dns/dns.go:227-252 | a response fails on the header exactly when it is shorter than 12 bytes, and with SERVFAIL or NXDOMAIN exactly when the response code is 2 or 3, before any section is read; on success it holds QDCOUNT questions |
| Resolver.ResponseAsWritten | dns/dns.go:227-266 | parseResponse as written: on success QDCOUNT questions, ANCOUNT answers and empty authority and additional sections; header errors come first |
| Resolver.ParseResponse | dns/dns.go:227-266 | the method with its two loops returns exactly ResponseAsWritten |
| Resolver.Response | dns/dns.go:227-266 | parseResponse with the corrected answer loop: the same counts, the same empty sections and the same header errors |
| Resolver.ResponseRoundTrip | dns/dns.go:227-266 | by the corrected parse Response: a response written as a header, a question section and an answer section is read back, whatever follows, unless its response code is 2 or 3; other non-zero codes are accepted |
| Resolver.ResponseRoundTripAsWritten | dns/dns.go:227-266 | parseResponse as written reads such a response back as well when it has at most one answer; with two answers it can refuse it (SecondAnswerMisread) |
| Resolver.ResponseAgreement | dns/dns.go:255-262 | with at most one answer, the loop as written and the corrected loop read the same response |
| Resolver.SecondAnswerMisread | dns/dns.go:255-262 | in a response with two answers, the second ending the message and no longer than everything before the answers, parseResponse as written looks for the second answer past the end and refuses the response, while the corrected parse reads both answers |
| Resolver.BuildQuery | dns/dns.go:132-166 | fails exactly when the name cannot be encoded; otherwise 12 + name + 6 bytes: a header with the given ID, flags 0x0100 and one question, then the packed question of class IN |
| Resolver.QueryRoundTrip | dns/dns.go:132-166 | a query read as a response gives back its header and its one question, by either answer loop |
| Resolver.Resolve | dns/dns.go:96-117 | fails on building exactly when the name cannot be encoded; a result is returned only when the reply parses with parseResponse as written (ResponseAsWritten) and carries the query's ID |
| Resolver.ResolveCorrected | dns/dns.go:96-117 | the same pipeline over the corrected parse Response, with the same guarantees |
| Resolver.ResolveAgreement | dns/dns.go:96-117 | when the reply has at most one answer, Resolve and ResolveCorrected give the same result |
| Resolver.ParseErrorsFirst | dns/dns.go:107-114 | the reply is parsed before its ID is compared: a parse failure, including NXDOMAIN, is reported even when the ID does not match |
| Resolver.ResolveReflected | dns/dns.go:96-117 | a server that echoes the query back is answered with the query's header and question, by Resolve and ResolveCorrected alike |
| Cli.Status | cmd/dsn-resolver/main.go:125-133 | "NOERROR" exactly for response code 0, "NXDOMAIN" exactly for 3, "ERROR" exactly for the others |
| Cli.StatusOfResponse | cmd/dsn-resolver/main.go:125-133 | the status of a response that parseResponse accepts is read from its flags; it is "NOERROR" exactly when the response code is 0, "ERROR" otherwise, and never "NXDOMAIN" |
| Cli.FlagNames | cmd/dsn-resolver/main.go:148-161 | at most four names, each two letters without a space |
| Cli.Flags | cmd/dsn-resolver/main.go:148-163 | the text is empty exactly when no name is listed |
| Cli.FlagNamesListed | cmd/dsn-resolver/main.go:148-163 | qr, aa, rd and ra are listed exactly when bits 0x8000, 0x0400, 0x0100 and 0x0080 are set, in that order |
| Cli.FlagsRoundTrip | cmd/dsn-resolver/main.go:148-163 | the flags text is empty exactly when none of the four bits is set; otherwise it splits on single spaces into the listed names |
| Cli.FlagsIgnoreOtherBits | cmd/dsn-resolver/main.go:148-163 | flags that agree on the four named bits give the same text |
| Cli.FlagsExamples | cmd/dsn-resolver/main.go:148-163 | the query flags 0x0100 read "rd"; 0x8180 reads "qr rd ra" |
| Cli.Upper | cmd/dsn-resolver/main.go:42 | upper-casing keeps the length, leaves no lower-case ASCII letter, changes nothing but lower-case ASCII letters, and turns each of those into its capital |
| Cli.UpperIdempotent | cmd/dsn-resolver/main.go:42 | upper-casing twice is the same as upper-casing once |
| Cli.TypeFromName | cmd/dsn-resolver/main.go:45-62 | an accepted name selects one of the six named types, whose name it is |
| Cli.SelectType | cmd/dsn-resolver/main.go:40-62 | a selected type is one of the six named types; a refusal happens only with a type argument, and names a text the switch does not accept |
| Cli.TypeFromNameRoundTrip | cmd/dsn-resolver/main.go:45-62 | a name is accepted exactly when it is the name RecordType.String gives one of the six named types, and it selects that type |
| Cli.SelectTypeCases | cmd/dsn-resolver/main.go:40-62 | without a type argument A is selected; the argument's case does not matter; the selected type's name is the upper-cased argument; a refused name is never "A" |
| Cli.SelectTypeExamples | cmd/dsn-resolver/main.go:40-62 | "mx" selects MX, "Aaaa" selects AAAA, and "soa" is refused as "SOA" |

## Left out

- `sendQuery` (dns/dns.go:183-204) is network I/O: `Resolve` takes it as the function argument `exchange`, with transport errors as values.
- `crypto/rand` in `buildQuery`: the ID is an argument, so the error of a failed random read is not modelled.
- `NewResolver` and its timeout are configuration only.
- `main`'s argument count check, `os.Exit` and `printResponse` are console I/O. The one fact about printing that matters, that answers are rendered against an empty message, is `Records.AliasWithoutMessage`.
- The error branches of `binary.Write` and `binary.Read` on fixed-size values cannot be taken; packing and unpacking are total apart from the length check.
- Error messages are an error datatype, not text.
- `Message.DecodeName`: the source recurses on every pointer without limit, so a pointer loop never returns. The model carries a jump budget, and callers pass the message length plus one. That running out of this budget can only come from a pointer loop is argued (a chain of pointers without a loop visits each offset at most once), not proved. Running out gives `TooManyJumps`. `Message.DecodeMoreJumps` shows that the budget changes nothing else.
- `Message.DecodeDomainName`: the source's `jumped` flag is always false where it is tested, so it does not appear.
- `Records.Quote`: Go's `%q` escapes quotes, backslashes and unprintable characters; the model only wraps the text in double quotes, which is exact for printable text without those characters.
- `Cli.Upper`: strings.ToUpper is modelled for ASCII only. Non-ASCII letters whose upper case is an ASCII letter are not upper-cased; U+017F and U+0131 are examples. So an argument like "nſ" is refused here although the source accepts it as NS.
- `Cli.Status`: Go's `flags&0x000F` is written as the response code `flags % 16`. The two are equal for 16-bit values, but that equality is not proved. The single-bit tests of `getFlags` are bit-vector masks, and their agreement with arithmetic is proved.
- `Resolver.Resolve` parses with the answer loop as written (`Resolver.ResponseAsWritten`), as the source does. `Resolver.ResolveCorrected` is the same pipeline over the corrected loop; the two agree on replies with at most one answer (`Resolver.ResolveAgreement`).
- The authority and additional sections are never read by the source; the model leaves them empty, as the source does.

## Findings

| source | as written | input that shows it | evidently intended | confidence | as-written member | corrected member |
|---|---|---|---|---|---|---|
| dns/dns.go:261 | `offset += n`, where `n` is the absolute offset after the record returned by ParseResourceRecord (dns/records.go:152) | a response with two answers, the second ending the message and no longer than everything before the answers: the second answer is looked for at the first answer's start plus its end, past the message, and the response is refused | `offset = n`, so that each answer is read where the previous one ended | high, not executed | Resolver.SecondAnswerMisread | Resolver.AnswersRoundTrip |
