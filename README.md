# ZanRxCacheCallAdapter, modelled in Dafny

ZanRxCacheCallAdapter is an HTTP caching layer for okhttp and Retrofit on Android. Each
request chooses a cache policy in a request header named `ZanCache`. An interceptor selects
the policy and forwards the request. It may then store the response in a disk cache of
line-oriented text records, keyed by the request url without its `access_token` parameters.

This project models the three parts that make the decisions:

- **CacheControl** (`cache_control.dfy`): `ZanCacheControl`.
  - `Parse` and `ScanValue` are the header loop and the cursor loop of `parse`. They are
    proved equal to `Parsed`, a specification that works without a cursor.
  - The lemmas state what `Parsed` returns: which flags are set, which `max-age` wins, and
    when the raw header value survives.
  - The policy factories and the read/write predicates.
- **EntryCodec** (`entry_codec.dfy`) and **EntryStream** (`entry_stream.dfy`): the cache
  record.
  - `Encode` and `Decode` are the record format, written as functions on text.
  - `RoundTrip` proves that decoding what is written gives the entry back.
  - `WriteTo` and `ReadEntry`, with their helpers, are the step-by-step writer and reader of
    `Entry.writeTo` and `Entry(Source)`, each proved equal to the codec.
  - `readInt` rejects every count outside [0, Integer.MAX_VALUE], so the `-1` null-chain marker
    is a decode error.
- **DiskStore** (`disk_store.dfy`): the store under the cache, seen only through the calls the
  cache makes. It is a map from key to two text slots, changed by an editor that ends in a
  commit or an abort.
- **LocalCache** (`local_cache.dfy`): `ZanLocalCache`.
  - Key derivation and the GET/POST filter.
  - `put`, `get` and `removeRequest` as methods of a `Cache` class over the store.
  - `CacheRequestImpl`'s one-shot `done` flag, as the `CacheRequest` class.
  - `CacheResponseBody.contentLength`.
- **Interceptor** (`interceptor.dfy`): `ZanCacheInterceptor.intercept`.
  - The network state and the transport behind `chain.proceed` are inputs.
  - The `ResponseAvailable` callback is an optional function.

Supporting modules:

- `java_text.dfy`: the `String`/`Long` behaviour relied on.
- `http.dfy`: okhttp's headers, urls, status lines, requests and responses.
- `header_parser.dfy`: okhttp's `HeaderParser`.
- `wrappers.dfy`: `Option` and `Result`.

`isCacheOpen()` is called by the interceptor but not defined in `ZanCacheControl`. The model
takes it to be `isReadCacheOpen() || isWriteCacheOpen()` (`Policy.IsCacheOpen`).

Four behaviours of the code that the model keeps:

- On the cache-open path, `intercept` never reads the cache. It calls the transport even for
  only-if-cached.
- `intercept` puts the response whenever the callback accepts the body, whatever
  `isWriteCacheOpen()` says.
- `Entry.matches` compares the stored url, stripped of `access_token`, with the request's full
  url. `get` uses it as written. See Findings.
- `Entry.response` attaches a `CacheRequestBody` to the rebuilt request whatever its method,
  so `get` throws for a stored GET. See Findings.

The rules of okhttp 3.0 to 3.3 that the model relies on (the okhttp line whose internal
packages the cache imports):

- `Request.Builder.method` refuses a body for a method outside POST, PUT, PATCH, PROPPATCH,
  REPORT, OPTIONS, DELETE, PROPFIND, MKCOL and LOCK, compared case-sensitively
  (`Http.PermitsRequestBody`). It also refuses an empty method.
- `Response.Builder.build` refuses a negative code.
- `ResponseBody.create(MediaType, String)` appends `; charset=utf-8` to a content type that
  names no charset (`Http.CreateBody`).

## Model

| member | source | states |
|---|---|---|
| CacheControl.CreateOnlyIfCache | library/src/main/java/com/youzan/mobile/rxcacheadapter/ZanCacheControl.java:47-49 | sets onlyIfCached and nothing else; the policy is open for reading and closed for writing |
| CacheControl.CreateNoCache | library/src/main/java/com/youzan/mobile/rxcacheadapter/ZanCacheControl.java:51-53 | sets noCache only; the policy opens neither side of the cache |
| CacheControl.CreateCacheBefore | library/src/main/java/com/youzan/mobile/rxcacheadapter/ZanCacheControl.java:55-57 | sets noCache, not cacheBefore, so despite its name the policy opens neither side |
| CacheControl.CreateRefreshCache | library/src/main/java/com/youzan/mobile/rxcacheadapter/ZanCacheControl.java:59-61 | sets refreshCache only; the policy is open for writing and closed for reading |
| CacheControl.Parse | library/src/main/java/com/youzan/mobile/rxcacheadapter/ZanCacheControl.java:91-160 | the header loop computes Parsed(headers): every header scanned in order, the first ZanCache value kept, then dropped again when a second ZanCache header was seen |
| CacheControl.ScanValue | library/src/main/java/com/youzan/mobile/rxcacheadapter/ZanCacheControl.java:113-154 | the cursor loop over one value applies, in order, exactly the directives Directives(value, 0) lists; it terminates because the cursor strictly advances |
| CacheControl.NextDirective | library/src/main/java/com/youzan/mobile/rxcacheadapter/ZanCacheControl.java:113-141 | one turn of the tokenizer moves the cursor strictly forward, to at most one past the end of the value |
| CacheControl.ReadDirective | library/src/main/java/com/youzan/mobile/rxcacheadapter/ZanCacheControl.java:115-141 | the loop body yields the directive, its parameter and the new cursor that NextDirective describes |
| CacheControl.ReadAfterName | library/src/main/java/com/youzan/mobile/rxcacheadapter/ZanCacheControl.java:120-141 | after the name: a ',' or ';' or the end gives no parameter and is consumed; '=' introduces a parameter |
| CacheControl.ReadParameter | library/src/main/java/com/youzan/mobile/rxcacheadapter/ZanCacheControl.java:124-140 | after '=' and blanks: a quoted parameter is taken up to the closing quote, an unquoted one up to ',' or ';' and trimmed |
| CacheControl.BareDirective | library/src/main/java/com/youzan/mobile/rxcacheadapter/ZanCacheControl.java:116-122 | a name ended by ',' or ';' or the end is a directive without parameter, its name trimmed, and the separator is consumed |
| CacheControl.QuotedParameter | library/src/main/java/com/youzan/mobile/rxcacheadapter/ZanCacheControl.java:127-133 | a quoted parameter is the verbatim text between the quotes, separators and blanks included; the cursor stops past the closing quote |
| CacheControl.PlainParameter | library/src/main/java/com/youzan/mobile/rxcacheadapter/ZanCacheControl.java:135-140 | an unquoted parameter is the trimmed text after the blanks up to the next ',' or ';'; the cursor stops on the separator |
| CacheControl.QuotedParameterText | library/src/main/java/com/youzan/mobile/rxcacheadapter/ZanCacheControl.java:128-133 | the parameter reader on a quoted string returns the text between the quotes and the position after the closing one |
| CacheControl.PlainParameterText | library/src/main/java/com/youzan/mobile/rxcacheadapter/ZanCacheControl.java:136-140 | the parameter reader on an unquoted string returns its trimmed text and the separator's position |
| CacheControl.DirectiveWithParameter | library/src/main/java/com/youzan/mobile/rxcacheadapter/ZanCacheControl.java:123-125 | a name followed by '=' carries the parameter read after the '=' |
| CacheControl.TokenIsDirective | library/src/main/java/com/youzan/mobile/rxcacheadapter/ZanCacheControl.java:113-122 | a value made of one plain word is exactly one bare directive of that name |
| CacheControl.NamedParameterIsDirective | library/src/main/java/com/youzan/mobile/rxcacheadapter/ZanCacheControl.java:113-140 | name=value with two plain words is exactly one directive with that parameter |
| CacheControl.BareExample | library/src/main/java/com/youzan/mobile/rxcacheadapter/ZanCacheControl.java:113-122 | a trimmed name without separators is one bare directive |
| CacheControl.AllDirectivesCoverEveryHeader | library/src/main/java/com/youzan/mobile/rxcacheadapter/ZanCacheControl.java:100-114 | a directive is scanned exactly when it occurs in the value of some header, whatever that header's name |
| CacheControl.ScanAllDirectives | library/src/main/java/com/youzan/mobile/rxcacheadapter/ZanCacheControl.java:100-155 | apart from the raw header value, the state after the header loop is the directives of all headers applied in order |
| CacheControl.ParsedIsAllDirectivesApplied | library/src/main/java/com/youzan/mobile/rxcacheadapter/ZanCacheControl.java:92-159 | apart from the raw header value, parse returns the default policy with all directives of all headers applied in order |
| CacheControl.ApplyAllAppend | library/src/main/java/com/youzan/mobile/rxcacheadapter/ZanCacheControl.java:100-155 | applying two runs of directives one after the other equals applying their concatenation |
| CacheControl.ApplyEffect | library/src/main/java/com/youzan/mobile/rxcacheadapter/ZanCacheControl.java:143-153 | one directive sets the flag it names, or sets max-age from parseSeconds(parameter, -1), and changes nothing else |
| CacheControl.NamesExclusive | library/src/main/java/com/youzan/mobile/rxcacheadapter/ZanCacheControl.java:143-153 | a name matches at most one of the five directive names, so the order of the if-else chain does not matter |
| CacheControl.ApplyAllFields | library/src/main/java/com/youzan/mobile/rxcacheadapter/ZanCacheControl.java:143-153 | a flag is set after a run iff it was set before or some directive names it (flags never reset); max-age comes from the last max-age directive |
| CacheControl.LastMaxAge | library/src/main/java/com/youzan/mobile/rxcacheadapter/ZanCacheControl.java:145-146 | the last max-age directive is one of the directives; when there is none, no directive is named max-age |
| CacheControl.ParsedFields | library/src/main/java/com/youzan/mobile/rxcacheadapter/ZanCacheControl.java:143-153 | each flag of parse's result is set iff some directive of some header names it; maxAgeSeconds is the last max-age directive's seconds, -1 without one |
| CacheControl.NoRecognisedDirective | library/src/main/java/com/youzan/mobile/rxcacheadapter/ZanCacheControl.java:92-98 | without a recognised directive parse returns the default: no flags, maxAgeSeconds -1, and the cache closed |
| CacheControl.ApplyAllKeepsHeaderValue | library/src/main/java/com/youzan/mobile/rxcacheadapter/ZanCacheControl.java:104-111 | directives never touch the raw header value |
| CacheControl.ScanAllHeaderValue | library/src/main/java/com/youzan/mobile/rxcacheadapter/ZanCacheControl.java:104-111 | the header loop keeps the first ZanCache value and clears the usable mark iff a second one appears |
| CacheControl.ParsedHeaderValue | library/src/main/java/com/youzan/mobile/rxcacheadapter/ZanCacheControl.java:104-158 | headerValue is the ZanCache header's value (name compared ignoring case) when exactly one is present, and null otherwise |
| CacheControl.TwoBareHeaders | library/src/main/java/com/youzan/mobile/rxcacheadapter/ZanCacheControl.java:100-155 | two headers of one directive each give the two directives applied in header order |
| CacheControl.SingleDirective | library/src/main/java/com/youzan/mobile/rxcacheadapter/ZanCacheControl.java:100-155 | a single directive in all the headers gives that directive applied to the default |
| CacheControl.TwoDirectives | library/src/main/java/com/youzan/mobile/rxcacheadapter/ZanCacheControl.java:100-155 | two directives in all the headers are applied in order |
| CacheControl.MaxAgeExample | library/src/main/java/com/youzan/mobile/rxcacheadapter/ZanCacheControl.java:145-146 | "ZanCache: max-age=120" gives maxAgeSeconds 120 and leaves the cache closed |
| CacheControl.CaseExample | library/src/main/java/com/youzan/mobile/rxcacheadapter/ZanCacheControl.java:143-150 | "NO-CACHE" is no-cache in any case, while "CACHE-BEFORE" (wrong case, in another header) opens nothing |
| HeaderParser.SkipUntil | library/src/main/java/com/youzan/mobile/rxcacheadapter/ZanCacheControl.java:116 | the first position at or after pos holding one of the characters, or the end of the string |
| HeaderParser.SkipWhitespace | library/src/main/java/com/youzan/mobile/rxcacheadapter/ZanCacheControl.java:125 | the first position at or after pos that is not a space or tab, or the end of the string |
| HeaderParser.ParseSeconds | library/src/main/java/com/youzan/mobile/rxcacheadapter/ZanCacheControl.java:146 | a missing or non-numeric parameter gives the default (-1 here); a number is clamped into [0, Integer.MAX_VALUE] |
| JavaText.Trim | library/src/main/java/com/youzan/mobile/rxcacheadapter/ZanCacheControl.java:117 | the result is a contiguous part of the input; every character removed before or after it is at or below U+0020, and the result neither starts nor ends with such a character |
| JavaText.ToUpperCase | library/src/main/java/com/youzan/mobile/rxcacheadapter/cache/ZanLocalCache.java:191 | the upper-cased string has the same length, letter by letter |
| JavaText.ParseLong | library/src/main/java/com/youzan/mobile/rxcacheadapter/cache/ZanLocalCache.java:542 | a parsed value lies in the range of a Java long; the empty string does not parse |
| JavaText.DecimalString | library/src/main/java/com/youzan/mobile/rxcacheadapter/cache/ZanLocalCache.java:380 | writeDecimalLong: digits for a non-negative value, a minus sign then digits for a negative one |
| JavaText.ParseLongOfDecimal | library/src/main/java/com/youzan/mobile/rxcacheadapter/cache/ZanLocalCache.java:399-406 | Long.parseLong reads back every long writeDecimalLong wrote |
| Http.LastValue | library/src/main/java/com/youzan/mobile/rxcacheadapter/cache/ZanLocalCache.java:325-326 | Headers.get finds nothing iff no field has the name, ignoring case |
| Http.LastValueOfAppended | library/src/main/java/com/youzan/mobile/rxcacheadapter/cache/ZanLocalCache.java:325-326 | a field appended last is what Headers.get returns for its name |
| Http.RemoveAll | library/src/main/java/com/youzan/mobile/rxcacheadapter/cache/ZanLocalCache.java:327-328 | removeAll keeps exactly the fields of other names, and keeps the list as is when none matches |
| Http.Without | library/src/main/java/com/youzan/mobile/rxcacheadapter/cache/ZanLocalCache.java:186 | the query parameters not of the given name, and all of them |
| Http.RemoveAllQueryParameters | library/src/main/java/com/youzan/mobile/rxcacheadapter/cache/ZanLocalCache.java:185-186 | the url keeps its base and fragment and loses every parameter of the name; an emptied query disappears |
| Http.RemovedParameterIsIrrelevant | library/src/main/java/com/youzan/mobile/rxcacheadapter/cache/ZanLocalCache.java:184-188 | urls that differ only in the removed parameter print the same once it is removed |
| Http.RemovingPresentParameterChangesUrl | library/src/main/java/com/youzan/mobile/rxcacheadapter/cache/ZanLocalCache.java:462-464 | removing a parameter that is present changes the printed url |
| Http.ParseStatusLine | library/src/main/java/com/youzan/mobile/rxcacheadapter/cache/ZanLocalCache.java:316 | a parsed status line is HTTP/1.0 or HTTP/1.1 |
| Http.StatusLineRoundTrip | library/src/main/java/com/youzan/mobile/rxcacheadapter/cache/ZanLocalCache.java:389-390 | a written status line with a three-digit code parses back, its protocol as written |
| EntryCodec.ReadLine | library/src/main/java/com/youzan/mobile/rxcacheadapter/cache/ZanLocalCache.java:307 | a strict line read fails exactly when no newline is left, as EndOfInput, and consumes input |
| EntryCodec.ReadLineOfLine | library/src/main/java/com/youzan/mobile/rxcacheadapter/cache/ZanLocalCache.java:376-379 | a written line without newline characters reads back, leaving what follows |
| EntryCodec.ReadDecimalLong | library/src/main/java/com/youzan/mobile/rxcacheadapter/cache/ZanLocalCache.java:492 | a read decimal lies in the range of a long; failures are EndOfInput or BadNumber |
| EntryCodec.ReadDecimalLongOfDecimal | library/src/main/java/com/youzan/mobile/rxcacheadapter/cache/ZanLocalCache.java:380-381 | what writeDecimalLong wrote reads back when no digit follows it |
| EntryCodec.ReadInt | library/src/main/java/com/youzan/mobile/rxcacheadapter/cache/ZanLocalCache.java:490-501 | a read count lies in [0, Integer.MAX_VALUE]; every failure is an IOException |
| EntryCodec.ReadIntOfCountLine | library/src/main/java/com/youzan/mobile/rxcacheadapter/cache/ZanLocalCache.java:490-501 | a count line written for n in [0, Integer.MAX_VALUE] reads back as n |
| EntryCodec.ReadIntRejectsNegative | library/src/main/java/com/youzan/mobile/rxcacheadapter/cache/ZanLocalCache.java:494 | a negative count is rejected |
| EntryCodec.ReadIntRejectsLarge | library/src/main/java/com/youzan/mobile/rxcacheadapter/cache/ZanLocalCache.java:494 | a count above Integer.MAX_VALUE is rejected |
| EntryCodec.ReadIntRejectsTrailing | library/src/main/java/com/youzan/mobile/rxcacheadapter/cache/ZanLocalCache.java:493-494 | a count followed by other characters on its line is rejected |
| EntryCodec.NullChainMarkerRejected | library/src/main/java/com/youzan/mobile/rxcacheadapter/cache/ZanLocalCache.java:428-429 | the -1 null-chain marker fails in readInt before its branch is reached |
| EntryCodec.ParseHeaderLine | library/src/main/java/com/youzan/mobile/rxcacheadapter/cache/ZanLocalCache.java:312 | an accepted header line gives a non-empty trimmed name and a trimmed value; a rejected one is BadHeaderLine |
| EntryCodec.ParseHeaderLineOfHeader | library/src/main/java/com/youzan/mobile/rxcacheadapter/cache/ZanLocalCache.java:383-386 | a well-formed header's written line is accepted back as that header |
| EntryCodec.ReadHeaderLines | library/src/main/java/com/youzan/mobile/rxcacheadapter/cache/ZanLocalCache.java:311-313 | reading n header lines gives n headers |
| EntryCodec.ReadHeaderLinesOfLines | library/src/main/java/com/youzan/mobile/rxcacheadapter/cache/ZanLocalCache.java:382-387 | the lines of well-formed headers read back as those headers, in order |
| EntryCodec.ReadHeaderBlockOfBlock | library/src/main/java/com/youzan/mobile/rxcacheadapter/cache/ZanLocalCache.java:380-387 | a count line and its header lines read back as the headers |
| EntryCodec.ReadStatusLineOfLine | library/src/main/java/com/youzan/mobile/rxcacheadapter/cache/ZanLocalCache.java:316 | the written status line reads back as the status, its protocol as written |
| EntryCodec.ParseMillis | library/src/main/java/com/youzan/mobile/rxcacheadapter/cache/ZanLocalCache.java:329-334 | a missing timing header reads as 0; a malformed one is BadMillis |
| EntryCodec.ExtractTiming | library/src/main/java/com/youzan/mobile/rxcacheadapter/cache/ZanLocalCache.java:325-335 | the headers left contain no field of either timing name, and no field that was not there |
| EntryCodec.MissingTimingIsZero | library/src/main/java/com/youzan/mobile/rxcacheadapter/cache/ZanLocalCache.java:329-334 | without timing headers both millis are 0 and the headers are kept |
| EntryCodec.TimingLookup | library/src/main/java/com/youzan/mobile/rxcacheadapter/cache/ZanLocalCache.java:325-326 | Headers.get finds the two appended timing headers, whatever came before |
| EntryCodec.TimingRemoval | library/src/main/java/com/youzan/mobile/rxcacheadapter/cache/ZanLocalCache.java:327-328 | removeAll of both names takes away the two appended timing headers with every other field of those names |
| EntryCodec.WrittenResponseHeaders | library/src/main/java/com/youzan/mobile/rxcacheadapter/cache/ZanLocalCache.java:391-406 | the written response headers are the entry's own followed by two more, their count is size + 2 |
| EntryCodec.ExtractTimingOfWritten | library/src/main/java/com/youzan/mobile/rxcacheadapter/cache/ZanLocalCache.java:325-335 | the two timing headers writeTo appends are read back as the millis and removed from the headers |
| EntryCodec.ReadCertificate | library/src/main/java/com/youzan/mobile/rxcacheadapter/cache/ZanLocalCache.java:435-438 | one certificate line consumes input |
| EntryCodec.ReadCertificates | library/src/main/java/com/youzan/mobile/rxcacheadapter/cache/ZanLocalCache.java:434-439 | reading n certificate lines gives n certificates |
| EntryCodec.ReadCertificatesOfLine | library/src/main/java/com/youzan/mobile/rxcacheadapter/cache/ZanLocalCache.java:435-438 | a certificate's base64 line reads back as that certificate, in front of those after it |
| EntryCodec.ReadCertificatesOfLines | library/src/main/java/com/youzan/mobile/rxcacheadapter/cache/ZanLocalCache.java:451-456 | the lines writeCertList wrote read back as the certificates, in order |
| EntryCodec.ReadCertificateListOfBlock | library/src/main/java/com/youzan/mobile/rxcacheadapter/cache/ZanLocalCache.java:427-444 | a certificate block (count and lines) reads back as the chain |
| EntryCodec.ReadHandshakeOfText | library/src/main/java/com/youzan/mobile/rxcacheadapter/cache/ZanLocalCache.java:337-349 | the written TLS block reads back as the handshake, the TLS version line included iff it was written |
| EntryCodec.ReadChainsOfText | library/src/main/java/com/youzan/mobile/rxcacheadapter/cache/ZanLocalCache.java:344-348 | both chains and the optional TLS version line read back |
| EntryCodec.HttpsNeedsBlankLine | library/src/main/java/com/youzan/mobile/rxcacheadapter/cache/ZanLocalCache.java:338-341 | an https record whose TLS block starts with a non-empty line is rejected as ExpectedBlank |
| EntryCodec.ReadRequestPartOfText | library/src/main/java/com/youzan/mobile/rxcacheadapter/cache/ZanLocalCache.java:307-314 | the url, method and Vary headers read back as written |
| EntryCodec.ReadResponsePartOfText | library/src/main/java/com/youzan/mobile/rxcacheadapter/cache/ZanLocalCache.java:316-335 | the status line and response headers read back, the millis taken out of them |
| EntryCodec.RoundTrip | library/src/main/java/com/youzan/mobile/rxcacheadapter/cache/ZanLocalCache.java:304-356 | decoding what writeTo wrote gives the entry back: every field, except that the protocol is as the status line writes it and fields named like a timing header are gone |
| EntryStream.WriteHeaders | library/src/main/java/com/youzan/mobile/rxcacheadapter/cache/ZanLocalCache.java:382-387 | the header loop writes one "name: value" line per header, in order |
| EntryStream.WriteCertList | library/src/main/java/com/youzan/mobile/rxcacheadapter/cache/ZanLocalCache.java:446-460 | writeCertList writes the count, then one base64 line per certificate |
| EntryStream.WriteHandshake | library/src/main/java/com/youzan/mobile/rxcacheadapter/cache/ZanLocalCache.java:408-419 | the TLS block: blank line, cipher suite, both chains, TLS version line iff present |
| EntryStream.WriteTo | library/src/main/java/com/youzan/mobile/rxcacheadapter/cache/ZanLocalCache.java:373-421 | the text writeTo leaves in the metadata slot is Encode(entry), whose decoding RoundTrip states |
| EntryStream.ReadHeaders | library/src/main/java/com/youzan/mobile/rxcacheadapter/cache/ZanLocalCache.java:320-324 | the header-builder loop reads exactly what ReadHeaderLines reads, and fails the same way |
| EntryStream.ReadCertificateLine | library/src/main/java/com/youzan/mobile/rxcacheadapter/cache/ZanLocalCache.java:435-438 | one pass of the certificate loop reads one line, its base64 and the certificate |
| EntryStream.ReadCertificatesSnoc | library/src/main/java/com/youzan/mobile/rxcacheadapter/cache/ZanLocalCache.java:434-439 | reading i + 1 certificates is reading i, then one more line |
| EntryStream.ReadCertificatesFailed | library/src/main/java/com/youzan/mobile/rxcacheadapter/cache/ZanLocalCache.java:434-439 | once a certificate line fails, the whole list fails with that error |
| EntryStream.ReadCertificateLines | library/src/main/java/com/youzan/mobile/rxcacheadapter/cache/ZanLocalCache.java:433-440 | the certificate loop reads exactly what ReadCertificates reads, and fails the same way |
| EntryStream.ReadCertificateChain | library/src/main/java/com/youzan/mobile/rxcacheadapter/cache/ZanLocalCache.java:427-444 | readCertificateList: the count, then that many certificates |
| EntryStream.ReadHandshakeBlock | library/src/main/java/com/youzan/mobile/rxcacheadapter/cache/ZanLocalCache.java:337-349 | the https block of Entry(Source), as ReadHandshake |
| EntryStream.ReadChainsBlock | library/src/main/java/com/youzan/mobile/rxcacheadapter/cache/ZanLocalCache.java:344-348 | both chains, then the TLS version only when input remains |
| EntryStream.ReadEntry | library/src/main/java/com/youzan/mobile/rxcacheadapter/cache/ZanLocalCache.java:304-356 | Entry(Source) reads exactly Decode(source), so reading what WriteTo wrote gives the entry back |
| DiskStore.Completed | library/src/main/java/com/youzan/mobile/rxcacheadapter/cache/ZanLocalCache.java:127 | a commit keeps the slots the edit wrote and the previous ones for the rest, and fails when a new entry lacks a slot |
| DiskStore.Store.Get | library/src/main/java/com/youzan/mobile/rxcacheadapter/cache/ZanLocalCache.java:148-151 | a snapshot exists iff the key is stored, and holds the stored slots |
| DiskStore.Store.Edit | library/src/main/java/com/youzan/mobile/rxcacheadapter/cache/ZanLocalCache.java:118-121 | edit returns null while another editor holds the key, else a fresh open editor that now holds it |
| DiskStore.Store.Remove | library/src/main/java/com/youzan/mobile/rxcacheadapter/cache/ZanLocalCache.java:177 | remove drops the key's entry unless an editor holds it |
| DiskStore.Editor.Write | library/src/main/java/com/youzan/mobile/rxcacheadapter/cache/ZanLocalCache.java:122-126 | a write fills one slot of the edit, or changes nothing when the disk refuses it |
| DiskStore.Editor.Commit | library/src/main/java/com/youzan/mobile/rxcacheadapter/cache/ZanLocalCache.java:127 | commit stores the completed slots and frees the key |
| DiskStore.Editor.Abort | library/src/main/java/com/youzan/mobile/rxcacheadapter/cache/ZanLocalCache.java:130-136 | abort leaves the entries as they were and frees the key |
| LocalCache.CachedMethods | library/src/main/java/com/youzan/mobile/rxcacheadapter/cache/ZanLocalCache.java:190-192 | a method is cached exactly when it is GET or POST, ignoring case |
| LocalCache.AccessTokenNeverMatches | library/src/main/java/com/youzan/mobile/rxcacheadapter/cache/ZanLocalCache.java:462-466 | as written, matches fails for every request that carries access_token, because the stored url lost it |
| LocalCache.MatchesStoredRequest | library/src/main/java/com/youzan/mobile/rxcacheadapter/cache/ZanLocalCache.java:358-371 | corrected, the entry made from a response matches the request it answers |
| LocalCache.CanonicalUrlIgnoresAccessToken | library/src/main/java/com/youzan/mobile/rxcacheadapter/cache/ZanLocalCache.java:359-361 | urls that differ only in access_token give the same stored url |
| LocalCache.ContentLength | library/src/main/java/com/youzan/mobile/rxcacheadapter/cache/ZanLocalCache.java:540-546 | a missing Content-Length is -1, and the result is a long |
| LocalCache.ContentLengthOfDecimal | library/src/main/java/com/youzan/mobile/rxcacheadapter/cache/ZanLocalCache.java:540-546 | a Content-Length written as a long reads as that long |
| LocalCache.ContentLengthOfMalformed | library/src/main/java/com/youzan/mobile/rxcacheadapter/cache/ZanLocalCache.java:541-545 | a Content-Length that is not a long reads as -1 |
| LocalCache.EntryResponse | library/src/main/java/com/youzan/mobile/rxcacheadapter/cache/ZanLocalCache.java:468-487 | as written: rebuilding fails exactly when the stored method permits no request body or the code is negative; otherwise the response carries a request with the stored url and method and a body |
| LocalCache.EntryResponseCorrected | library/src/main/java/com/youzan/mobile/rxcacheadapter/cache/ZanLocalCache.java:468-487 | corrected: rebuilding fails exactly when the method is empty or the code is negative; the request carries a body exactly when the method permits one, so always when it requires one |
| LocalCache.ServableCachedMethods | library/src/main/java/com/youzan/mobile/rxcacheadapter/cache/ZanLocalCache.java:190-192 | of the methods put stores (GET and POST in any case), only the exact-case POST permits a request body |
| LocalCache.Cache.constructor | library/src/main/java/com/youzan/mobile/rxcacheadapter/cache/ZanLocalCache.java:72-85 | the cache holds the store it opened, or none when opening failed |
| LocalCache.Cache.KeyIgnoresAccessToken | library/src/main/java/com/youzan/mobile/rxcacheadapter/cache/ZanLocalCache.java:184-188 | requests that differ only in access_token share a key |
| LocalCache.Cache.Put | library/src/main/java/com/youzan/mobile/rxcacheadapter/cache/ZanLocalCache.java:99-138 | put changes nothing without a store, for a method other than GET or POST, for Vary: *, or while the key is held; otherwise it stores the encoded entry and the body, or leaves the entries alone when a write fails |
| LocalCache.Cache.WriteEntry | library/src/main/java/com/youzan/mobile/rxcacheadapter/cache/ZanLocalCache.java:122-137 | both slots written then committed; a refused write aborts and the entries stay as they were |
| LocalCache.Cache.Get | library/src/main/java/com/youzan/mobile/rxcacheadapter/cache/ZanLocalCache.java:140-172 | as written: without a store, on a miss, on a decode failure of the IOException kind, or when the as-written match fails, the result is null; an unchecked decode failure (a bad header line, bad millis, bad base64, an unknown cipher suite or TLS version) leaves get, and so does rebuilding a stored entry whose method permits no body or whose code is negative; otherwise the stored response |
| LocalCache.Cache.StoredGetThrows | library/src/main/java/com/youzan/mobile/rxcacheadapter/cache/ZanLocalCache.java:468-474 | after a put of a response whose method permits no request body (GET, or a lowercase post), get for a request with the same key fails rebuilding the request |
| LocalCache.Cache.GetMissesAccessToken | library/src/main/java/com/youzan/mobile/rxcacheadapter/cache/ZanLocalCache.java:462-466 | after a put of a POST whose url carries access_token, get for that same request returns null |
| LocalCache.Cache.PutThenGetAsWritten | library/src/main/java/com/youzan/mobile/rxcacheadapter/cache/ZanLocalCache.java:140-172 | as written, get serves a stored response: after a put of an exact-case POST whose url carries no access_token, get for that same request returns the restored response, with a request body |
| LocalCache.Cache.PutThenGet | library/src/main/java/com/youzan/mobile/rxcacheadapter/cache/ZanLocalCache.java:140-172 | corrected: after a put of a GET or POST, the corrected lookup returns the stored response, with a request body exactly when the method permits one, for every request with that method whose url differs at most in access_token |
| LocalCache.Cache.RemoveRequest | library/src/main/java/com/youzan/mobile/rxcacheadapter/cache/ZanLocalCache.java:174-182 | corrected: without a store nothing happens; otherwise the key's entry is removed unless it is being edited |
| LocalCache.Cache.RemoveRequestAsWritten | library/src/main/java/com/youzan/mobile/rxcacheadapter/cache/ZanLocalCache.java:174-182 | as written: without a store removeRequest throws a NullPointerException |
| LocalCache.CacheRequest.constructor | library/src/main/java/com/youzan/mobile/rxcacheadapter/cache/ZanLocalCache.java:200-216 | a new request holds an open edit and has not ended |
| LocalCache.CacheRequest.Close | library/src/main/java/com/youzan/mobile/rxcacheadapter/cache/ZanLocalCache.java:204-214 | the first ending commits the edit; a close after any ending does nothing |
| LocalCache.CacheRequest.Abort | library/src/main/java/com/youzan/mobile/rxcacheadapter/cache/ZanLocalCache.java:218-231 | the first ending aborts the edit; an abort after any ending does nothing, so commit and abort never both happen |
| Interceptor.OfflineIsCacheOpen | library/src/main/java/com/youzan/mobile/rxcacheadapter/ZanCacheInterceptor.java:62-66 | with no network the policy is only-if-cached whatever the headers: open for reading, closed for writing |
| Interceptor.PlainRequestPassesThrough | library/src/main/java/com/youzan/mobile/rxcacheadapter/ZanCacheInterceptor.java:67-70 | online, headers without a recognised directive take the pass-through path |
| Interceptor.Forwarded | library/src/main/java/com/youzan/mobile/rxcacheadapter/ZanCacheInterceptor.java:71-73 | the forwarded request keeps the method and url and exactly the headers not named ZanCache |
| Interceptor.Rebuilt | library/src/main/java/com/youzan/mobile/rxcacheadapter/ZanCacheInterceptor.java:80-86 | the rebuilt response differs from the original only in its body, which is buffered and holds the text; it has a content type iff the original had one, and that content type always names a charset, unchanged when the original named one |
| Http.CreateBody | library/src/main/java/com/youzan/mobile/rxcacheadapter/ZanCacheInterceptor.java:85 | a buffered body holding the text; a content type without a charset gains `; charset=utf-8`, one with a charset is kept |
| Interceptor.Chain.Proceed | library/src/main/java/com/youzan/mobile/rxcacheadapter/ZanCacheInterceptor.java:75 | proceed records the request sent and returns the transport's answer |
| Interceptor.CacheInterceptor.constructor | library/src/main/java/com/youzan/mobile/rxcacheadapter/ZanCacheInterceptor.java:50-54 | the interceptor holds the availability callback |
| Interceptor.CacheInterceptor.Intercept | library/src/main/java/com/youzan/mobile/rxcacheadapter/ZanCacheInterceptor.java:57-91 | one transport call; cache-open: the request without ZanCache, the rebuilt response returned and put iff the callback accepts the body; otherwise the request and response unchanged; transport failures propagate |

## Left out

- Okio streams and buffers are left out. The metadata record and the body are whole strings.
  - A sink or source that fails half-way is not modelled.
  - The only write failure modelled is a disk that refuses writes (`Store.writable`).
- DiskLruCache's internals are left out: its journal, LRU eviction, the 20 MiB budget, the
  version check, and snapshot closing.
- The singleton `getInstance` and `init` with the cache directory are left out. The store is
  passed to `Cache`'s constructor, as null when opening failed.
- Concurrency is left out: the `synchronized` blocks and the store's own locking. Every
  operation runs alone.
- Logging (`printStackTrace`) is left out.
- These okhttp and JDK collaborators are parameters whose code is not part of this model:
  - `Utils.md5Hex` (`Cache.md5Hex`);
  - `OkHeaders.hasVaryAll` and `OkHeaders.varyHeaders`;
  - the base64 codec and the X.509 certificate factory (`Security`, assumed lawful for the
    round trip);
  - the cipher-suite and TLS-version name tables.
- `StatusLine`, `HttpUrl`, `Headers.Builder.add`, `HeaderParser`, `Long.parseLong` and
  Okio's line and decimal readers are written out in Dafny after okhttp 3 and Okio 1. Their
  source is not part of this model.
- Case mapping in `toUpperCase` and `equalsIgnoreCase` covers ASCII letters only.
- `Platform.get().getPrefix()` is fixed as "OkHttp".
- `NetworkUtils.getState` is an input: the `NetworkState` value.
- `CacheResponse.java` (the Retrofit converter around cached responses) is not part of this
  model.
- `CacheRequestBody`'s content type is not modelled.
- `MediaType.parse` on the stored Content-Type is left out. The cached body keeps the header
  text.
- Interceptor.CacheInterceptor.Intercept: an IOException while reading the body
  (`body().string()`) is not modelled. The transport either fails or delivers the whole body.
- Interceptor.CacheInterceptor.Intercept: responses travel as values. The model does not
  capture that the original body stream is consumed once.
- LocalCache.Cache.Get: a failing `diskLruCache.get` (an IOException at library/src/main/java/com/youzan/mobile/rxcacheadapter/cache/ZanLocalCache.java:152-155) is not
  modelled, because the store is a map.
- LocalCache.Cache.Get: the snapshot opened by `get` is never closed in the model.
- LocalCache.Cache.Put: on the https path without a handshake, `writeTo` throws a
  NullPointerException. The model states only that the editor stays open and holds the key. It
  does not model the half-written metadata stream.
- LocalCache.CacheRequest.Close: the forwarding body sink and the bytes written through it are
  not modelled. Only the ending of the edit is.
- JavaText.ParseLong: accepts ASCII digits only. `Long.parseLong` and `Integer.parseInt` also
  accept other Unicode decimal digits. This affects `max-age` (`CacheControl.ParseSeconds`), the
  sent and received millis, the Content-Length of a cached body and the status code.
- EntryStream.WriteCertList: `getEncoded` may throw a `CertificateEncodingException`, which
  `writeCertList` turns into an IOException and `put` into an abort. The model's certificates
  always encode.
- LocalCache.Cache.Get: `Request.Builder.url` throws for a stored url that `HttpUrl` cannot
  parse. The model does not check the stored url.
- Interceptor.Rebuilt: `MediaType` is given as its text and its charset parameter. Parsing the
  header, and the exception `MediaType.charset()` throws for an unsupported charset name, are
  not modelled.
- CacheControl.Parse: the source keeps the policy's fields in local variables. The model keeps
  them in one `Policy` value.

## Findings

| source | as written | input that shows it | evidently intended | confidence | as-written member | corrected member |
|---|---|---|---|---|---|---|
| library/src/main/java/com/youzan/mobile/rxcacheadapter/cache/ZanLocalCache.java:462-466 | `matches` compares the stored url, stripped of `access_token` at library/src/main/java/com/youzan/mobile/rxcacheadapter/cache/ZanLocalCache.java:359-361, with the request's full url | a POST (exact case) to `https://h/p?access_token=t`: the entry is stored under the stripped url, and `get` for the same request finds it but returns null | compare with the request url stripped the same way, so a put request is found again | high, not executed | LocalCache.Cache.GetMissesAccessToken | LocalCache.Cache.PutThenGet |
| library/src/main/java/com/youzan/mobile/rxcacheadapter/cache/ZanLocalCache.java:174-182 | `removeRequest` calls `diskLruCache.remove` without the null check that `put` and `get` make | any request, when `DiskLruCache.open` failed in the constructor (the store is null) | do nothing when there is no store, as `put` and `get` do | high, not executed | LocalCache.Cache.RemoveRequestAsWritten | LocalCache.Cache.RemoveRequest |
| library/src/main/java/com/youzan/mobile/rxcacheadapter/cache/ZanLocalCache.java:473 | `Entry.response` rebuilds the cached request with `.method(requestMethod, new CacheRequestBody())`, a body whatever the method | put a response to any GET, then get for the same request: okhttp refuses a body for GET and `get` throws an IllegalArgumentException, so no GET is ever served from the cache | attach a body only when the method permits one | medium, not executed | LocalCache.Cache.StoredGetThrows | LocalCache.Cache.PutThenGet |
