# smtp-sidecar: a Dafny model of the mail intake pipeline

smtp-sidecar accepts mail over SMTP and forwards it through the Gmail send API
with an OAuth token. This project models its core in Dafny and proves
properties of that model:

- the **pattern-list builder** `ConvertToRegexPatterns` (patterns.go). It splits
  a comma-separated allow-list configuration, trims and skips blank segments,
  and compiles the rest in order, all or nothing;
- the **allow-list matcher** `MatchAnyPattern` (matcher.go). An empty list
  admits everything; otherwise some expression must match;
- the **mail handler** returned by `MailHandler` (handler.go). It has a parse
  gate, a sender gate and an all-recipients gate, then sends one base64-encoded
  copy of the whole message to the account `me`, and reports only send failures;
- the **start-up decisions** of main.go. `getClient` chooses between the cached
  token and the consent flow. `tokenFromFile` and `saveToken` read and write the
  token file. The local OAuth callback classifies requests inside
  `tokenFromWeb`. `mailHandler` is the unfiltered handler that `main` installs.

The regular-expression engine, the mail parser and the token's JSON codec are
left uninterpreted. They are parameters: `Regex.Engine(valid, matches)`,
`parses: seq<byte> -> bool` and `Bootstrap.Codec(encode, decode)`. Every
property holds for every interpretation of them. The send API's answer, the
requests reaching the callback server, and the authorization server's code
exchange are inputs too.

Files: `wrappers.dfy` (Option/Result), `bytes.dfy` (the byte type of mail data and token files), `seqs.dfy` (first-match search, concatenation of mapped pieces),
`text.dfy` (split/join/trim), `regex.dfy` (engine and compiled expressions),
`patterns.dfy`, `matcher.dfy`, `base64.dfy` (section 4 of RFC 4648),
`handler.dfy`, `bootstrap.dfy` (main.go).

Behaviours of the code worth knowing, which the model follows:

- In the callback (main.go:49-61), a state mismatch or a missing code answers
  500 and the flow keeps waiting. Neither aborts the process. `TokenFromWeb`
  therefore takes the first request that hands over a code, whatever came
  before it.
- `main` (main.go:158) installs the legacy `mailHandler`, which never filters
  and swallows send errors. It does not install `MailHandler`, and the
  configuration struct (main.go:123-127) has no allow-list fields. Both
  handlers are modelled. `LegacyIsUnfiltered` states how they differ.
- `tokenFromFile` (main.go:86-87) returns a partly decoded token together with
  the decode error. `getClient` ignores the token whenever there is an error,
  so the model returns only the error.
- `saveToken` (main.go:93-98) truncates the file on opening and ignores the
  encoder's error. A failed write therefore leaves an empty or partial file
  while start-up carries on. The write's outcome is an input (`Write`), and
  `EmptyWriteForgetsToken` shows the next start-up asking for consent again.

## Model

| member | source | states |
|---|---|---|
| Text.Split | patterns.go:12 | the pieces number one more than the commas, contain no comma, and joined with commas give the input back |
| Text.SplitJoin | patterns.go:12 | splitting comma-free pieces joined by commas gives back exactly those pieces |
| Text.TrimSpace | patterns.go:20 | the result is empty iff the segment is all white space; otherwise it starts and ends with a non-space character |
| Text.TrimSpaceKeepsCharacters | patterns.go:20 | every character of the result occurs in the segment |
| Text.TrimSpaceIsInfix | patterns.go:20 | the result is an infix of the segment with only white space on either side |
| Text.TrimSpaceOf | patterns.go:20 | white space around a string that neither starts nor ends with white space is exactly what trimming removes |
| Text.TrimSpaceIdempotent | patterns.go:20 | trimming twice is trimming once |
| Patterns.Fields | patterns.go:18-25 | there are never more non-blank trimmed segments than segments |
| Patterns.FieldsAreClean | patterns.go:20-25 | every segment that is kept is non-empty and starts and ends with a non-space character |
| Patterns.FieldsAppend | patterns.go:18-33 | segments are kept in input order: the fields of a concatenation are the concatenated fields |
| Patterns.CompileSegments | patterns.go:18-36 | success iff every kept segment compiles; on success entry i is the compiled i-th kept segment; on failure the error names the first kept segment that does not compile |
| Patterns.ConvertToRegexPatterns | patterns.go:10-37 | the whole call: all-or-nothing compilation of the trimmed non-blank comma-separated segments, in order, with no partial list on error; a failure names the first segment that does not compile |
| Patterns.EmptyInput | patterns.go:12-36 | the empty configuration gives the empty list and no error, whatever the engine |
| Patterns.BlankInput | patterns.go:20-25 | a configuration of commas and white space only, such as ",,", gives the empty list and no error |
| Patterns.CountBound | patterns.go:12-15 | the list is never longer than the number of commas plus one |
| Patterns.SourcesAreClean | patterns.go:12-33 | no compiled source contains a comma or starts or ends with white space, and none is nil |
| Patterns.SkipsBlanksAndTrims | patterns.go:18-33 | a blank segment between two sources is skipped, and the white space around them is trimmed |
| Patterns.BadSourceSpoilsAll | patterns.go:28-31 | a source that does not compile fails the whole call even after a good one, and it is the source reported |
| Matcher.MatchAnyPattern | matcher.go:9-24 | the empty list returns true; a non-empty list returns true iff some expression matches the input; the early-exit scan decides exactly the allow-list predicate `Allowed` |
| Matcher.AllowedIgnoresOrder | matcher.go:16-20 | the verdict depends only on which expressions the list holds, not on their order or repetition |
| Matcher.AllowedAppend | matcher.go:11-23 | an appended expression adds what it matches to a non-empty list and never removes anything; only the empty list is narrowed by an append |
| Matcher.ConfiguredAllowList | matcher.go:9-24 | a list built from a configuration admits an input iff the configuration has no non-blank segment or one of its trimmed segments matches |
| Base64.Encode | handler.go:35 | `base64.StdEncoding.EncodeToString`: whole groups of four characters, empty only for no data; its length, alphabet, inverse, zero padding bits and test vectors are stated by `EncodeLength`, `EncodeAlphabet`, `DecodeEncode`, `EncodePadBits` and `Rfc4648Vectors` |
| Base64.Char | handler.go:35 | each six-bit value maps to an alphabet character that decodes back to it |
| Base64.EncodeLength | handler.go:35 | the encoding of n bytes has 4 * ceil(n / 3) characters |
| Base64.EncodePadBits | handler.go:35 | the unused bits of a padded final group are zero: the character before `==` has its low four bits clear, the one before `=` its low two bits (the canonical encoding of section 3.5 of RFC 4648) |
| Base64.DecodeEncode | handler.go:35 | decoding the encoding of any bytes gives the bytes back |
| Base64.EncodeAlphabet | handler.go:35 | the encoding uses only alphabet characters and the padding character |
| Base64.Rfc4648Vectors | handler.go:35 | the encoder agrees with all seven test vectors of section 10 of RFC 4648: "", "f", "fo", "foo", "foob", "fooba", "foobar" |
| Handler.ForwardRequest | handler.go:34-36 | the send request is for the user "me" and its raw field is the standard base64 encoding of the whole message, which decodes back to it |
| Handler.FirstRejected | handler.go:28-33 | none iff every recipient is admitted; otherwise the first recipient the recipient list refuses |
| Handler.Handle | handler.go:16-44 | unparseable data is dropped; a refused sender is dropped without looking at recipients; a message is sent iff the sender and every recipient are admitted (an empty recipient list passes); a drop names the first refused recipient; the one send is to "me" with the standard base64 encoding of the whole message; an error is returned iff the send fails, and it is the send's error |
| Bootstrap.TokenFromFile | main.go:79-88 | an error when the file cannot be opened or its contents cannot be decoded; otherwise the decoded token |
| Bootstrap.SaveToken | main.go:91-99 | fatal when the file cannot be created; otherwise success whatever the write does: the file holds a prefix of the encoded token, all of it when the write completes, and no other file changes |
| Bootstrap.FormValue | main.go:49-54 | the first value given for the key when there is one, and "" otherwise |
| Bootstrap.Callback | main.go:44-62 | favicon gives 404 before the state is looked at; a state mismatch gives 500; a code is handed over iff the state matches and the code is non-empty, and then it is that code, with the success page; a matching state with no code gives 500; every request that hands nothing over gives 404 or 500 |
| Bootstrap.TokenFromWeb | main.go:41-76 | waiting iff no request hands over a code; otherwise the code of the first request that does is exchanged, and a failed exchange is fatal |
| Bootstrap.GetClient | main.go:28-38 | a readable cache is used, with no consent flow and no write; when the cache fails, a client comes only from the consent flow, carries its token, and exactly that token is saved as far as the write got; blocked iff the cache fails and no code arrives |
| Bootstrap.RestartUsesSavedToken | main.go:28-38 | if the codec reads back what it writes and the write completes, the start after a consent flow loads the saved token and runs no consent flow |
| Bootstrap.EmptyWriteForgetsToken | main.go:91-99 | a start-up that succeeds through the consent flow with a write that fails before any byte leaves an empty file; if empty contents do not decode, the next start-up cannot use the cache |
| Bootstrap.LegacyHandle | main.go:101-121 | the installed handler sends iff the data parses, the standard base64 encoding of the whole message to "me", and returns nil in every case |
| Bootstrap.LegacyIsUnfiltered | main.go:101-121 | the installed handler sends exactly what the filtering handler sends with empty allow lists; only the filtering one reports a failed send |
| Bootstrap.BlankConfigurationsMatchLegacy | main.go:151-158 | with blank allow-list configurations both lists are empty, and filtering changes nothing about what is sent |

## Left out

- Regular-expression syntax and matching (RE2, anchoring, case folding, Unicode). `Regex.Engine` is uninterpreted, so the library cases at matcher_test.go:71-140 are not modelled.
- Text.TrimSpace: trims the ASCII white space characters space, tab, line feed, vertical tab, form feed and carriage return. Go's `strings.TrimSpace` also trims the other Unicode white space, such as U+0085 and U+00A0. Strings are sequences of characters, not UTF-8 bytes.
- Patterns.CompileSegments: the error carries the trimmed segment that failed to compile. The structure of Go's `*syntax.Error` (error code and offending fragment) is not modelled.
- Mail parsing (`net/mail.ReadMessage`, RFC 5322 headers) and the Subject lookup used only for logging. The parser is the uninterpreted `parses`.
- Logging (`slog`, `log.Printf`), the smtpd listener, environment and credentials loading (main.go:129-157), and the Gmail client construction. They are I/O whose only decisions stop the process on an error: `panic` when the environment cannot be parsed (main.go:135-138), and `log.Fatalf` when the credentials file cannot be read or parsed or the Gmail service cannot be built (main.go:141-156).
- Base64.Decode: it models Go's non-strict decoder for input without line breaks. Go's decoder also skips `\r` and `\n`. The decoder appears only in a test, to state the round trip.
- The JSON encoding of tokens and file permissions (0600). The codec is uninterpreted, and files are a map from path to contents.
- The OAuth machinery: `AuthCodeURL`, the authorization server's `Exchange` (an input function), and the time-based state nonce (main.go:43, an input). The channel handoff and its blocking are modelled only as "first request that hands over a code"; `Blocked` stands for waiting forever. What the callback server does with requests after the handoff is not modelled. `log.Fatalf` is modelled as a `Fatal`/`ExchangeFailed` result, not as process termination.
- Concurrency of per-connection handler invocations. The handler is a pure function of its inputs, so concurrent calls cannot interfere.
- The 1000-pattern performance tests.
