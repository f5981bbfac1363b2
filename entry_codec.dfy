/**
 * The cache entry record of ZanLocalCache.Entry: a strict, newline-separated text holding the
 * request url and method, the Vary request headers, the status line, the response headers
 * (with two synthetic timing headers), and for https urls the TLS session. Decoding works on
 * the input that is still unread, so each reader returns what it read and the rest.
 */
module EntryCodec {
  import opened Wrappers
  import opened JavaText
  import opened Http

  /** The query parameter that never reaches a key or a stored url. */
  const AccessToken: string := "access_token"

  /** Platform.get().getPrefix() is "OkHttp": the names of the two synthetic response headers. */
  const SentMillis: string := "OkHttp-Sent-Millis"
  const ReceivedMillis: string := "OkHttp-Received-Millis"

  /** The request url with every access_token query parameter removed, as a string. */
  function CanonicalUrl(u: Url): string {
    UrlString(RemoveAllQueryParameters(u, AccessToken))
  }

  datatype Entry = Entry(
    url: string,
    varyHeaders: seq<Header>,
    requestMethod: string,
    protocol: Protocol,
    code: int,
    message: string,
    responseHeaders: seq<Header>,
    handshake: Option<Handshake>,
    sentRequestMillis: int,
    receivedResponseMillis: int)

  /**
   * Entry(Response): the fields of a live response; varyHeaders is what OkHeaders.varyHeaders
   * computed for it.
   */
  function FromResponse(response: Response, varyHeaders: seq<Header>): Entry {
    Entry(CanonicalUrl(response.request.url), varyHeaders, response.request.httpMethod,
          response.protocol, response.code, response.message, response.headers, response.handshake,
          response.sentRequestAtMillis, response.receivedResponseAtMillis)
  }

  predicate IsHttps(url: string) {
    "https://" <= url
  }

  /** Why decoding stopped. */
  datatype DecodeError =
    | EndOfInput          // readUtf8LineStrict / readDecimalLong: EOFException
    | BadNumber           // readDecimalLong: NumberFormatException, rethrown by readInt
    | BadCount            // readInt: negative, above Integer.MAX_VALUE, or not alone on its line
    | BadStatusLine       // StatusLine.parse: ProtocolException
    | ExpectedBlank       // the line opening the TLS block is not empty
    | BadCertificate      // CertificateException, rethrown as IOException
    | BadHeaderLine       // Headers.Builder.add(line): IllegalArgumentException
    | BadMillis           // Long.parseLong on a timing header: NumberFormatException
    | BadBase64           // ByteString.decodeBase64 gave null
    | UnknownCipherSuite  // CipherSuite.forJavaName: IllegalArgumentException
    | UnknownTlsVersion   // TlsVersion.forJavaName: IllegalArgumentException
  {
    /** The failures Java raises as IOException; the others are unchecked exceptions. */
    predicate IsIOException() {
      EndOfInput? || BadNumber? || BadCount? || BadStatusLine? || ExpectedBlank? || BadCertificate?
    }
  }

  /**
   * The security collaborators: base64 of section 4 of RFC 4648 in both directions, the X.509
   * certificate factory, and the names CipherSuite and TlsVersion know.
   */
  datatype Security = Security(
    base64: seq<bv8> -> string,
    decodeBase64: string -> Option<seq<bv8>>,
    generateCertificate: seq<bv8> -> Option<Certificate>,
    isCipherSuite: string -> bool,
    isTlsVersion: string -> bool)
  {
    /** What the codec relies on: base64 text fits on a line and decodes back, certificates re-read. */
    ghost predicate Lawful() {
      && (forall b :: LineSafe(base64(b)))
      && (forall b :: decodeBase64(base64(b)) == Some(b))
      && (forall c: Certificate :: generateCertificate(c.encoded) == Some(c))
    }
  }

  /** A value read from the front of the input, and the input left after it. */
  datatype Read<+T> = Read(value: T, rest: string)

  // ---------------------------------------------------------------------------------------
  // Lines and numbers.

  /** A string that can be written as one line and read back unchanged. */
  predicate LineSafe(s: string) {
    '\n' !in s && (s == [] || s[|s| - 1] != '\r')
  }

  function Line(s: string): string {
    s + "\n"
  }

  /**
   * readUtf8LineStrict: the text up to the next '\n', minus one '\r' before it; without a
   * '\n' the input ends too early.
   */
  function ReadLine(s: string): (r: Result<Read<string>, DecodeError>)
    ensures r.Success? ==> |r.value.rest| < |s|
    ensures r.Failure? <==> '\n' !in s
    ensures r.Failure? ==> r.error == EndOfInput
  {
    var newline := IndexOf(s, '\n');
    if newline == |s| then Failure(EndOfInput)
    else
      var line := s[..newline];
      Success(Read(if line != [] && line[|line| - 1] == '\r' then line[..|line| - 1] else line, s[newline + 1..]))
  }

  lemma ReadLineOfLine(s: string, rest: string)
    requires LineSafe(s)
    ensures ReadLine(Line(s) + rest) == Success(Read(s, rest))
  {
    assert Line(s) + rest == s + ['\n'] + rest;
    IndexOfAfter(s, '\n', rest);
    assert (s + ['\n'] + rest)[..|s|] == s;
    assert (s + ['\n'] + rest)[|s| + 1..] == rest;
  }

  /** The end of the run of digits starting at from. */
  function DigitRunEnd(s: string, from: nat): (r: nat)
    requires from <= |s|
    ensures from <= r <= |s|
    ensures forall i :: from <= i < r ==> IsDigit(s[i])
    ensures r < |s| ==> !IsDigit(s[r])
    decreases |s| - from
  {
    if from == |s| || !IsDigit(s[from]) then from else DigitRunEnd(s, from + 1)
  }

  lemma DigitRunEndAt(s: string, from: nat, end: nat)
    requires from <= end <= |s|
    requires forall i :: from <= i < end ==> IsDigit(s[i])
    requires end == |s| || !IsDigit(s[end])
    ensures DigitRunEnd(s, from) == end
  {
  }

  /**
   * readDecimalLong: an optional leading '-' and the digits after it, as a Java long; a lone
   * '-' reads as 0. A first character that is neither, or a value out of range, is a
   * NumberFormatException; no input at all is an EOFException.
   */
  function ReadDecimalLong(s: string): (r: Result<Read<int>, DecodeError>)
    ensures r.Success? ==> LongMin <= r.value.value <= LongMax && |r.value.rest| < |s|
    ensures r.Failure? ==> r.error == EndOfInput || r.error == BadNumber
  {
    if s == [] then Failure(EndOfInput)
    else if !IsDigit(s[0]) && s[0] != '-' then Failure(BadNumber)
    else
      var start := if s[0] == '-' then 1 else 0;
      var end := DigitRunEnd(s, start);
      assert AllDigits(s[start..end]);
      var magnitude: int := DigitsValue(s[start..end]);
      var v := if s[0] == '-' then -magnitude else magnitude;
      if v < LongMin || LongMax < v then Failure(BadNumber) else Success(Read(v, s[end..]))
  }

  /** writeDecimalLong followed by '\n'. */
  function CountLine(n: int): string {
    Line(DecimalString(n))
  }

  /**
   * readInt: a decimal long that must be alone on its line and lie in [0, Integer.MAX_VALUE];
   * every failure surfaces as an IOException.
   */
  function ReadInt(s: string): (r: Result<Read<int>, DecodeError>)
    ensures r.Success? ==> 0 <= r.value.value <= IntMax && |r.value.rest| < |s|
    ensures r.Failure? ==> r.error.IsIOException()
  {
    var n :- ReadDecimalLong(s);
    var line :- ReadLine(n.rest);
    if n.value < 0 || n.value > IntMax || line.value != [] then Failure(BadCount)
    else Success(Read(n.value, line.rest))
  }

  /** What writeDecimalLong wrote, readDecimalLong reads, when no digit follows it. */
  lemma ReadDecimalLongOfDecimal(v: int, rest: string)
    requires LongMin <= v <= LongMax
    requires rest == [] || !IsDigit(rest[0])
    ensures ReadDecimalLong(DecimalString(v) + rest) == Success(Read(v, rest))
  {
    var d := DecimalString(v);
    var s := d + rest;
    var start := if v < 0 then 1 else 0;
    var magnitude: nat := if v < 0 then -v else v;
    DecimalTextShape(v, rest);
    DigitsRoundTrip(magnitude);
    assert DigitsValue(s[start..DigitRunEnd(s, start)]) == magnitude;
  }

  /** Where the sign, the digits and the rest lie in a written decimal followed by rest. */
  lemma DecimalTextShape(v: int, rest: string)
    requires rest == [] || !IsDigit(rest[0])
    ensures var d := DecimalString(v);
      var s := d + rest;
      var start := if v < 0 then 1 else 0;
      && s != [] && (s[0] == '-' <==> v < 0) && (IsDigit(s[0]) || s[0] == '-')
      && DigitRunEnd(s, start) == |d|
      && s[start..|d|] == NatDigits(if v < 0 then -v else v)
      && s[|d|..] == rest
  {
    var d := DecimalString(v);
    var s := d + rest;
    var start := if v < 0 then 1 else 0;
    assert s[0] == d[0];
    assert v < 0 ==> d[1..] == NatDigits(-v);
    assert v >= 0 ==> d == NatDigits(v);
    assert forall i :: start <= i < |d| ==> IsDigit(s[i]);
    assert |d| < |s| ==> s[|d|] == rest[0];
    DigitRunEndAt(s, start, |d|);
    assert s[start..|d|] == d[start..];
    assert s[|d|..] == rest;
    if v >= 0 {
      assert d[0..] == d;
    }
  }

  /** readInt reads back a count line. */
  lemma ReadIntOfCountLine(n: int, rest: string)
    requires 0 <= n <= IntMax
    ensures ReadInt(CountLine(n) + rest) == Success(Read(n, rest))
  {
    assert CountLine(n) + rest == DecimalString(n) + (Line("") + rest);
    ReadDecimalLongOfDecimal(n, Line("") + rest);
    ReadLineOfLine("", rest);
  }

  /** A negative count, such as the -1 that once stood for a null chain, is rejected. */
  lemma ReadIntRejectsNegative(v: int, rest: string)
    requires LongMin <= v < 0
    ensures ReadInt(CountLine(v) + rest) == Failure(BadCount)
  {
    assert CountLine(v) + rest == DecimalString(v) + (Line("") + rest);
    ReadDecimalLongOfDecimal(v, Line("") + rest);
  }

  /** A count above Integer.MAX_VALUE is rejected. */
  lemma ReadIntRejectsLarge(v: int, rest: string)
    requires IntMax < v <= LongMax
    ensures ReadInt(CountLine(v) + rest) == Failure(BadCount)
  {
    assert CountLine(v) + rest == DecimalString(v) + (Line("") + rest);
    ReadDecimalLongOfDecimal(v, Line("") + rest);
  }

  /** Anything but the line's end after the digits is rejected. */
  lemma ReadIntRejectsTrailing(n: int, trailing: string, rest: string)
    requires LongMin <= n <= LongMax
    requires trailing != [] && !IsDigit(trailing[0]) && LineSafe(trailing)
    ensures ReadInt(DecimalString(n) + Line(trailing) + rest) == Failure(BadCount)
  {
    assert DecimalString(n) + Line(trailing) + rest == DecimalString(n) + (Line(trailing) + rest);
    ReadDecimalLongOfDecimal(n, Line(trailing) + rest);
    ReadLineOfLine(trailing, rest);
  }

  // ---------------------------------------------------------------------------------------
  // Header lines.

  /** Headers.Builder rejects names and values holding a character below U+0020 or from U+007F on. */
  predicate IsPrintable(c: char) {
    ' ' <= c <= '~'
  }

  predicate AllPrintable(s: string) {
    forall i :: 0 <= i < |s| ==> IsPrintable(s[i])
  }

  /**
   * Headers.Builder.add(line): the name is the trimmed text before the first ':', the value the
   * trimmed text after it; a line without ':', an empty name or a forbidden character is an
   * IllegalArgumentException.
   */
  function ParseHeaderLine(line: string): (r: Result<Header, DecodeError>)
    ensures r.Success? ==> r.value.name != [] && IsTrimmed(r.value.name) && IsTrimmed(r.value.value)
    ensures r.Failure? ==> r.error == BadHeaderLine
  {
    var colon := IndexOf(line, ':');
    if colon == |line| then Failure(BadHeaderLine)
    else
      var name := Trim(line[..colon]);
      var value := line[colon + 1..];
      if name == [] || !AllPrintable(name) || !AllPrintable(value) then Failure(BadHeaderLine)
      else Success(Header(name, Trim(value)))
  }

  /** name, ": ", value and '\n', as writeTo writes each header. */
  function HeaderLine(h: Header): string {
    Line(h.name + ": " + h.value)
  }

  /** A header that Headers.Builder.add(line) reads back from its line unchanged. */
  predicate WellFormedHeader(h: Header) {
    && h.name != [] && AllPrintable(h.name) && IsTrimmed(h.name) && ':' !in h.name
    && AllPrintable(h.value) && IsTrimmed(h.value)
  }

  lemma PrintableIsLineSafe(s: string)
    requires AllPrintable(s)
    ensures LineSafe(s)
  {
  }

  lemma HeaderTextIsPrintable(h: Header)
    requires WellFormedHeader(h)
    ensures AllPrintable(h.name + ": " + h.value)
  {
    var line := h.name + ": " + h.value;
    assert forall i :: 0 <= i < |h.name| ==> line[i] == h.name[i];
    assert forall i :: |h.name| + 2 <= i < |line| ==> line[i] == h.value[i - |h.name| - 2];
  }

  lemma ParseHeaderLineOfHeader(h: Header)
    requires WellFormedHeader(h)
    ensures LineSafe(h.name + ": " + h.value)
    ensures ParseHeaderLine(h.name + ": " + h.value) == Success(h)
  {
    var line := h.name + ": " + h.value;
    var raw := " " + h.value;
    HeaderTextIsPrintable(h);
    PrintableIsLineSafe(line);
    assert line == h.name + [':'] + raw;
    IndexOfAfter(h.name, ':', raw);
    assert line[..|h.name|] == h.name;
    assert line[|h.name| + 1..] == raw;
    assert AllPrintable(raw);
    TrimOfTrimmed(h.name);
    TrimIgnoresBlankPrefix(" ", h.value);
    TrimOfTrimmed(h.value);
  }

  function HeaderLines(headers: seq<Header>): string
    decreases |headers|
  {
    if headers == [] then "" else HeaderLine(headers[0]) + HeaderLines(headers[1..])
  }

  /** xs in front of what r read; a failure stays the failure it is. */
  function Prepend<T>(xs: seq<T>, r: Result<Read<seq<T>>, DecodeError>): Result<Read<seq<T>>, DecodeError> {
    if r.Failure? then r else Success(Read(xs + r.value.value, r.value.rest))
  }

  lemma PrependNothing<T>(r: Result<Read<seq<T>>, DecodeError>)
    ensures Prepend([], r) == r
  {
    if r.Success? {
      assert [] + r.value.value == r.value.value;
    }
  }

  lemma PrependTwice<T>(xs: seq<T>, ys: seq<T>, r: Result<Read<seq<T>>, DecodeError>)
    ensures Prepend(xs, Prepend(ys, r)) == Prepend(xs + ys, r)
  {
    if r.Success? {
      assert xs + (ys + r.value.value) == (xs + ys) + r.value.value;
    }
  }

  /** A count line, then that many header lines. */
  function HeaderBlock(headers: seq<Header>): string {
    CountLine(|headers|) + HeaderLines(headers)
  }

  /** The builder loop: n header lines, each through Headers.Builder.add(line). */
  function ReadHeaderLines(s: string, n: nat): (r: Result<Read<seq<Header>>, DecodeError>)
    ensures r.Success? ==> |r.value.value| == n
    decreases n
  {
    if n == 0 then Success(Read([], s))
    else
      var line :- ReadLine(s);
      var header :- ParseHeaderLine(line.value);
      var more :- ReadHeaderLines(line.rest, n - 1);
      Success(Read([header] + more.value, more.rest))
  }

  function ReadHeaderBlock(s: string): Result<Read<seq<Header>>, DecodeError> {
    var count :- ReadInt(s);
    ReadHeaderLines(count.rest, count.value)
  }

  /** A header's line, read back, puts that header in front of what the lines after it give. */
  lemma ReadHeaderLinesOfLine(h: Header, after: string, n: nat)
    requires WellFormedHeader(h)
    ensures ReadHeaderLines(HeaderLine(h) + after, n + 1) == Prepend([h], ReadHeaderLines(after, n))
  {
    ParseHeaderLineOfHeader(h);
    ReadLineOfLine(h.name + ": " + h.value, after);
  }

  lemma {:induction false} ReadHeaderLinesOfLines(headers: seq<Header>, rest: string)
    requires forall h :: h in headers ==> WellFormedHeader(h)
    ensures ReadHeaderLines(HeaderLines(headers) + rest, |headers|) == Success(Read(headers, rest))
    decreases |headers|
  {
    if headers == [] {
      assert HeaderLines(headers) + rest == rest;
    } else {
      var h, n := headers[0], |headers| - 1;
      var after := HeaderLines(headers[1..]) + rest;
      assert HeaderLines(headers) + rest == HeaderLine(h) + after;
      ReadHeaderLinesOfLine(h, after, n);
      ReadHeaderLinesOfLines(headers[1..], rest);
      assert [h] + headers[1..] == headers;
      calc {
        ReadHeaderLines(HeaderLines(headers) + rest, |headers|);
        ReadHeaderLines(HeaderLine(h) + after, n + 1);
        Prepend([h], ReadHeaderLines(after, n));
        Prepend([h], Success(Read(headers[1..], rest)));
        Success(Read(headers, rest));
      }
    }
  }

  lemma ReadHeaderBlockOfBlock(headers: seq<Header>, rest: string)
    requires forall h :: h in headers ==> WellFormedHeader(h)
    requires |headers| <= IntMax
    ensures ReadHeaderBlock(HeaderBlock(headers) + rest) == Success(Read(headers, rest))
  {
    assert HeaderBlock(headers) + rest == CountLine(|headers|) + (HeaderLines(headers) + rest);
    ReadIntOfCountLine(|headers|, HeaderLines(headers) + rest);
    ReadHeaderLinesOfLines(headers, rest);
  }

  // ---------------------------------------------------------------------------------------
  // The status line and the timing headers.

  function ReadStatusLine(s: string): Result<Read<StatusLine>, DecodeError> {
    var line :- ReadLine(s);
    match ParseStatusLine(line.value)
    case None => Failure(BadStatusLine)
    case Some(status) => Success(Read(status, line.rest))
  }

  lemma ReadStatusLineOfLine(status: StatusLine, rest: string)
    requires 100 <= status.code <= 999 && LineSafe(status.message)
    ensures ReadStatusLine(Line(StatusLineString(status)) + rest)
         == Success(Read(status.(protocol := WrittenProtocol(status.protocol)), rest))
  {
    var prefix := (if status.protocol == Http10 then "HTTP/1.0" else "HTTP/1.1") + " " + DecimalString(status.code) + " ";
    assert StatusLineString(status) == prefix + status.message;
    assert '\n' !in prefix by {
      assert AllDigits(DecimalString(status.code));
    }
    assert LineSafe(StatusLineString(status));
    ReadLineOfLine(StatusLineString(status), rest);
    StatusLineRoundTrip(status);
  }

  /** The two timing values and the response headers left once their fields are removed. */
  datatype Timing = Timing(sent: int, received: int, headers: seq<Header>)

  /** Long.parseLong on a timing header's value; a missing header means 0. */
  function ParseMillis(value: Option<string>): (r: Result<int, DecodeError>)
    ensures value.None? ==> r == Success(0)
    ensures r.Failure? ==> r.error == BadMillis
  {
    match value
    case None => Success(0)
    case Some(text) =>
      match ParseLong(text)
      case None => Failure(BadMillis)
      case Some(millis) => Success(millis)
  }

  /**
   * Take the last value of each timing header, then drop every field of both names from the
   * headers, whatever its case.
   */
  function ExtractTiming(headers: seq<Header>): (r: Result<Timing, DecodeError>)
    ensures r.Success? ==> forall h :: h in r.value.headers ==>
      h in headers && !EqualsIgnoreCase(h.name, SentMillis) && !EqualsIgnoreCase(h.name, ReceivedMillis)
  {
    var sent := LastValue(headers, SentMillis);
    var received := LastValue(headers, ReceivedMillis);
    var remaining := RemoveAll(RemoveAll(headers, SentMillis), ReceivedMillis);
    var sentMillis :- ParseMillis(sent);
    var receivedMillis :- ParseMillis(received);
    Success(Timing(sentMillis, receivedMillis, remaining))
  }

  // ---------------------------------------------------------------------------------------
  // Certificates and the TLS block.

  function CertificateLines(certificates: seq<Certificate>, security: Security): string
    decreases |certificates|
  {
    if certificates == [] then ""
    else Line(security.base64(certificates[0].encoded)) + CertificateLines(certificates[1..], security)
  }

  /** writeCertList: the count, then one base64 line per certificate. */
  function CertificateBlock(certificates: seq<Certificate>, security: Security): string {
    CountLine(|certificates|) + CertificateLines(certificates, security)
  }

  /** One certificate line: base64 text, decoded, then given to the X.509 factory. */
  function ReadCertificate(s: string, security: Security): (r: Result<Read<Certificate>, DecodeError>)
    ensures r.Success? ==> |r.value.rest| < |s|
  {
    var line :- ReadLine(s);
    match security.decodeBase64(line.value)
    case None => Failure(BadBase64)
    case Some(bytes) =>
      match security.generateCertificate(bytes)
      case None => Failure(BadCertificate)
      case Some(certificate) => Success(Read(certificate, line.rest))
  }

  function ReadCertificates(s: string, n: nat, security: Security): (r: Result<Read<seq<Certificate>>, DecodeError>)
    ensures r.Success? ==> |r.value.value| == n
    decreases n
  {
    if n == 0 then Success(Read([], s))
    else
      var certificate :- ReadCertificate(s, security);
      var more :- ReadCertificates(certificate.rest, n - 1, security);
      Success(Read([certificate.value] + more.value, more.rest))
  }

  /**
   * readCertificateList, as written: a count of -1 would stand for an empty chain, but readInt
   * has already refused every negative count by then.
   */
  function ReadCertificateList(s: string, security: Security): Result<Read<seq<Certificate>>, DecodeError> {
    var count :- ReadInt(s);
    if count.value == -1 then Success(Read([], count.rest))
    else ReadCertificates(count.rest, count.value, security)
  }

  /** A certificate's line, read back, puts that certificate in front of what the lines after it give. */
  lemma ReadCertificatesOfLine(c: Certificate, after: string, n: nat, security: Security)
    requires security.Lawful()
    ensures ReadCertificates(Line(security.base64(c.encoded)) + after, n + 1, security)
         == Prepend([c], ReadCertificates(after, n, security))
  {
    ReadLineOfLine(security.base64(c.encoded), after);
    assert security.decodeBase64(security.base64(c.encoded)) == Some(c.encoded);
    assert security.generateCertificate(c.encoded) == Some(c);
    assert ReadCertificate(Line(security.base64(c.encoded)) + after, security) == Success(Read(c, after));
  }

  lemma {:induction false} ReadCertificatesOfLines(certificates: seq<Certificate>, security: Security, rest: string)
    requires security.Lawful()
    ensures ReadCertificates(CertificateLines(certificates, security) + rest, |certificates|, security)
         == Success(Read(certificates, rest))
    decreases |certificates|
  {
    if certificates == [] {
      assert CertificateLines(certificates, security) + rest == rest;
    } else {
      var after := CertificateLines(certificates[1..], security) + rest;
      ReadCertificatesOfLines(certificates[1..], security, rest);
      assert CertificateLines(certificates, security) + rest == Line(security.base64(certificates[0].encoded)) + after;
      ReadCertificatesOfFirstLine(certificates, CertificateLines(certificates, security) + rest, after, security, rest);
    }
  }

  /** The step of ReadCertificatesOfLines: the first certificate's line in front of the others'. */
  lemma ReadCertificatesOfFirstLine(certificates: seq<Certificate>, whole: string, after: string, security: Security, rest: string)
    requires security.Lawful() && certificates != []
    requires whole == Line(security.base64(certificates[0].encoded)) + after
    requires ReadCertificates(after, |certificates| - 1, security) == Success(Read(certificates[1..], rest))
    ensures ReadCertificates(whole, |certificates|, security) == Success(Read(certificates, rest))
  {
    ReadCertificatesOfLine(certificates[0], after, |certificates| - 1, security);
    assert [certificates[0]] + certificates[1..] == certificates;
  }

  lemma ReadCertificateListOfBlock(certificates: seq<Certificate>, security: Security, rest: string)
    requires security.Lawful() && |certificates| <= IntMax
    ensures ReadCertificateList(CertificateBlock(certificates, security) + rest, security)
         == Success(Read(certificates, rest))
  {
    var lines := CertificateLines(certificates, security);
    assert CertificateBlock(certificates, security) + rest == CountLine(|certificates|) + (lines + rest);
    ReadIntOfCountLine(|certificates|, lines + rest);
    ReadCertificatesOfLines(certificates, security, rest);
  }

  /** The null-chain marker -1 is not read as an empty chain: it is a decode error. */
  lemma NullChainMarkerRejected(security: Security, rest: string)
    ensures ReadCertificateList(CountLine(-1) + rest, security) == Failure(BadCount)
  {
    ReadIntRejectsNegative(-1, rest);
  }

  /** The TLS block: a blank line, the cipher suite, both chains, and the TLS version if known. */
  function HandshakeText(handshake: Handshake, security: Security): string {
    Line("") + (Line(handshake.cipherSuite) + ChainsText(handshake, security))
  }

  /** What follows the cipher suite line: both chains and the TLS version line, if any. */
  function ChainsText(handshake: Handshake, security: Security): string {
    CertificateBlock(handshake.peerCertificates, security)
    + (CertificateBlock(handshake.localCertificates, security)
    + (if handshake.tlsVersion.Some? then Line(handshake.tlsVersion.value) else ""))
  }

  /** The blank line and the cipher suite, then the chains. */
  function ReadHandshake(s: string, security: Security): Result<Read<Handshake>, DecodeError> {
    var blank :- ReadLine(s);
    if blank.value != [] then Failure(ExpectedBlank)
    else
      var cipherSuite :- ReadLine(blank.rest);
      if !security.isCipherSuite(cipherSuite.value) then Failure(UnknownCipherSuite)
      else ReadChains(cipherSuite.value, cipherSuite.rest, security)
  }

  /** Both certificate chains; the TLS version line is read only when input remains. */
  function ReadChains(cipherSuite: string, s: string, security: Security): Result<Read<Handshake>, DecodeError> {
    var peer :- ReadCertificateList(s, security);
    var local :- ReadCertificateList(peer.rest, security);
    if local.rest == [] then
      Success(Read(Handshake(None, cipherSuite, peer.value, local.value), []))
    else
      var tlsVersion :- ReadLine(local.rest);
      if !security.isTlsVersion(tlsVersion.value) then Failure(UnknownTlsVersion)
      else Success(Read(Handshake(Some(tlsVersion.value), cipherSuite, peer.value, local.value), tlsVersion.rest))
  }

  predicate WellFormedHandshake(handshake: Handshake, security: Security) {
    && LineSafe(handshake.cipherSuite) && security.isCipherSuite(handshake.cipherSuite)
    && |handshake.peerCertificates| <= IntMax && |handshake.localCertificates| <= IntMax
    && (handshake.tlsVersion.Some? ==>
          LineSafe(handshake.tlsVersion.value) && security.isTlsVersion(handshake.tlsVersion.value))
  }

  lemma ReadHandshakeOfText(handshake: Handshake, security: Security)
    requires security.Lawful() && WellFormedHandshake(handshake, security)
    ensures ReadHandshake(HandshakeText(handshake, security), security) == Success(Read(handshake, []))
  {
    var chains := ChainsText(handshake, security);
    ReadLineOfLine("", Line(handshake.cipherSuite) + chains);
    ReadLineOfLine(handshake.cipherSuite, chains);
    ReadChainsOfText(handshake, security);
  }

  lemma ReadChainsOfText(handshake: Handshake, security: Security)
    requires security.Lawful() && WellFormedHandshake(handshake, security)
    ensures ReadChains(handshake.cipherSuite, ChainsText(handshake, security), security) == Success(Read(handshake, []))
  {
    var tls := if handshake.tlsVersion.Some? then Line(handshake.tlsVersion.value) else "";
    var localPart := CertificateBlock(handshake.localCertificates, security) + tls;
    ReadCertificateListOfBlock(handshake.peerCertificates, security, localPart);
    ReadCertificateListOfBlock(handshake.localCertificates, security, tls);
    if handshake.tlsVersion.Some? {
      assert tls == Line(handshake.tlsVersion.value) + [];
      ReadLineOfLine(handshake.tlsVersion.value, []);
    }
  }

  // ---------------------------------------------------------------------------------------
  // The whole record.

  /** The response headers as written: the entry's own, then the two timing headers. */
  function WrittenResponseHeaders(e: Entry): (r: seq<Header>)
    ensures |r| == |e.responseHeaders| + 2
    ensures r[..|e.responseHeaders|] == e.responseHeaders
  {
    e.responseHeaders
    + [Header(SentMillis, DecimalString(e.sentRequestMillis)),
       Header(ReceivedMillis, DecimalString(e.receivedResponseMillis))]
  }

  /**
   * writeTo: the text stored in the metadata slot. An https entry must carry its handshake
   * (writeTo dereferences it).
   */
  function Encode(e: Entry, security: Security): string
    requires IsHttps(e.url) ==> e.handshake.Some?
  {
    Line(e.url)
    + (Line(e.requestMethod)
    + (HeaderBlock(e.varyHeaders)
    + (Line(StatusLineString(StatusLine(e.protocol, e.code, e.message)))
    + (HeaderBlock(WrittenResponseHeaders(e))
    + (if IsHttps(e.url) then HandshakeText(e.handshake.value, security) else "")))))
  }

  function ReadHandshakeIfHttps(url: string, s: string, security: Security): Result<Option<Handshake>, DecodeError> {
    if IsHttps(url) then
      var handshake :- ReadHandshake(s, security);
      Success(Some(handshake.value))
    else Success(None)
  }

  /** The url, the request method and the Vary request headers. */
  datatype RequestPart = RequestPart(url: string, requestMethod: string, varyHeaders: seq<Header>)

  function ReadRequestPart(s: string): Result<Read<RequestPart>, DecodeError> {
    var url :- ReadLine(s);
    var requestMethod :- ReadLine(url.rest);
    var vary :- ReadHeaderBlock(requestMethod.rest);
    Success(Read(RequestPart(url.value, requestMethod.value, vary.value), vary.rest))
  }

  /** The status line and the response headers, the timing values taken out of them. */
  datatype ResponsePart = ResponsePart(status: StatusLine, timing: Timing)

  function ReadResponsePart(s: string): Result<Read<ResponsePart>, DecodeError> {
    var status :- ReadStatusLine(s);
    var headers :- ReadHeaderBlock(status.rest);
    var timing :- ExtractTiming(headers.value);
    Success(Read(ResponsePart(status.value, timing), headers.rest))
  }

  /** Entry(Source): read the fields back in the order writeTo wrote them. */
  function Decode(s: string, security: Security): Result<Entry, DecodeError> {
    var request :- ReadRequestPart(s);
    var response :- ReadResponsePart(request.rest);
    var handshake :- ReadHandshakeIfHttps(request.value.url, response.rest, security);
    var status, timing := response.value.status, response.value.timing;
    Success(Entry(request.value.url, request.value.varyHeaders, request.value.requestMethod,
                  status.protocol, status.code, status.message, timing.headers, handshake,
                  timing.sent, timing.received))
  }

  /** What an entry must satisfy for writeTo's text to read back: one line per field, etc. */
  predicate WellFormedEntry(e: Entry, security: Security) {
    && LineSafe(e.url) && LineSafe(e.requestMethod)
    && (forall h :: h in e.varyHeaders ==> WellFormedHeader(h)) && |e.varyHeaders| <= IntMax
    && 100 <= e.code <= 999 && LineSafe(e.message)
    && (forall h :: h in e.responseHeaders ==> WellFormedHeader(h)) && |e.responseHeaders| + 2 <= IntMax
    && LongMin <= e.sentRequestMillis <= LongMax && LongMin <= e.receivedResponseMillis <= LongMax
    && (IsHttps(e.url) ==> e.handshake.Some? && WellFormedHandshake(e.handshake.value, security))
  }

  /** The text of a long is a well-formed header value. */
  lemma DecimalStringIsHeaderValue(v: int)
    ensures AllPrintable(DecimalString(v)) && IsTrimmed(DecimalString(v))
  {
    var d := DecimalString(v);
    if v < 0 {
      assert forall i :: 1 <= i < |d| ==> d[i] == d[1..][i - 1];
    }
  }

  lemma TimingNames()
    ensures EqualsIgnoreCase(SentMillis, SentMillis) && EqualsIgnoreCase(ReceivedMillis, ReceivedMillis)
    ensures !EqualsIgnoreCase(SentMillis, ReceivedMillis) && !EqualsIgnoreCase(ReceivedMillis, SentMillis)
  {
    assert |SentMillis| == 18 && |ReceivedMillis| == 22;
  }

  /** Headers.get finds the appended timing headers, whatever came before them. */
  lemma TimingLookup(headers: seq<Header>, sent: Header, received: Header)
    requires sent.name == SentMillis && received.name == ReceivedMillis
    ensures LastValue(headers + [sent, received], SentMillis) == Some(sent.value)
    ensures LastValue(headers + [sent, received], ReceivedMillis) == Some(received.value)
  {
    TimingNames();
    assert headers + [sent, received] == (headers + [sent]) + [received];
    LastValueOfAppended(headers + [sent], received, SentMillis);
    LastValueOfAppended(headers, sent, SentMillis);
    LastValueOfAppended(headers + [sent], received, ReceivedMillis);
  }

  /** removeAll of both names takes the appended timing headers away with the others. */
  lemma TimingRemoval(headers: seq<Header>, sent: Header, received: Header)
    requires sent.name == SentMillis && received.name == ReceivedMillis
    ensures RemoveAll(RemoveAll(headers + [sent, received], SentMillis), ReceivedMillis)
         == RemoveAll(RemoveAll(headers, SentMillis), ReceivedMillis)
  {
    TimingNames();
    RemoveAllAppend(headers, [sent, received], SentMillis);
    assert RemoveAll([sent, received], SentMillis) == [received] by {
      assert [sent, received][1..] == [received];
      assert [received][1..] == [];
    }
    RemoveAllAppend(RemoveAll(headers, SentMillis), [received], ReceivedMillis);
    assert RemoveAll([received], ReceivedMillis) == [] by {
      assert [received][1..] == [];
    }
    assert RemoveAll(headers, SentMillis) + [received] == RemoveAll(headers, SentMillis) + [received];
  }

  /** The timing headers writeTo appends are read back, and removed, by the decoder. */
  lemma ExtractTimingOfWritten(e: Entry)
    requires LongMin <= e.sentRequestMillis <= LongMax && LongMin <= e.receivedResponseMillis <= LongMax
    ensures ExtractTiming(WrittenResponseHeaders(e))
         == Success(Timing(e.sentRequestMillis, e.receivedResponseMillis,
                           RemoveAll(RemoveAll(e.responseHeaders, SentMillis), ReceivedMillis)))
  {
    var sent := Header(SentMillis, DecimalString(e.sentRequestMillis));
    var received := Header(ReceivedMillis, DecimalString(e.receivedResponseMillis));
    assert WrittenResponseHeaders(e) == e.responseHeaders + [sent, received];
    TimingLookup(e.responseHeaders, sent, received);
    TimingRemoval(e.responseHeaders, sent, received);
    ParseLongOfDecimal(e.sentRequestMillis);
    ParseLongOfDecimal(e.receivedResponseMillis);
  }

  lemma ReadRequestPartOfText(e: Entry, rest: string)
    requires LineSafe(e.url) && LineSafe(e.requestMethod)
    requires (forall h :: h in e.varyHeaders ==> WellFormedHeader(h)) && |e.varyHeaders| <= IntMax
    ensures ReadRequestPart(Line(e.url) + (Line(e.requestMethod) + (HeaderBlock(e.varyHeaders) + rest)))
         == Success(Read(RequestPart(e.url, e.requestMethod, e.varyHeaders), rest))
  {
    var afterMethod := HeaderBlock(e.varyHeaders) + rest;
    var afterUrl := Line(e.requestMethod) + afterMethod;
    ReadLineOfLine(e.url, afterUrl);
    ReadLineOfLine(e.requestMethod, afterMethod);
    ReadHeaderBlockOfBlock(e.varyHeaders, rest);
  }

  /** From position i on, visible characters other than ':' only. */
  predicate NameCharsFrom(w: string, i: nat)
    decreases |w| - i
  {
    i >= |w| || (' ' < w[i] <= '~' && w[i] != ':' && NameCharsFrom(w, i + 1))
  }

  lemma {:induction false} NameCharsFromAll(w: string, i: nat)
    requires NameCharsFrom(w, i)
    ensures forall j :: i <= j < |w| ==> ' ' < w[j] <= '~' && w[j] != ':'
    decreases |w| - i
  {
    if i < |w| {
      NameCharsFromAll(w, i + 1);
    }
  }

  /** A name of visible characters without ':' is one Headers.Builder accepts unchanged. */
  lemma NameCharsWellFormed(name: string)
    requires name != [] && NameCharsFrom(name, 0)
    ensures AllPrintable(name) && IsTrimmed(name) && ':' !in name
  {
    NameCharsFromAll(name, 0);
  }

  // The unrolling of NameCharsFrom is done a few characters at a time.

  lemma SentMillisWellFormed()
    ensures var name := "OkHttp-Sent-Millis";
      name != [] && AllPrintable(name) && IsTrimmed(name) && ':' !in name
  {
    var name := "OkHttp-Sent-Millis";
    assert NameCharsFrom(name, 12) && NameCharsFrom(name, 6) && NameCharsFrom(name, 0);
    NameCharsWellFormed(name);
  }

  lemma ReceivedMillisWellFormed()
    ensures var name := "OkHttp-Received-Millis";
      name != [] && AllPrintable(name) && IsTrimmed(name) && ':' !in name
  {
    var name := "OkHttp-Received-Millis";
    assert NameCharsFrom(name, 16) && NameCharsFrom(name, 11) && NameCharsFrom(name, 6);
    assert NameCharsFrom(name, 0);
    NameCharsWellFormed(name);
  }

  /** The two timing header names are names Headers.Builder accepts unchanged. */
  lemma TimingNameWellFormed(name: string)
    requires name == SentMillis || name == ReceivedMillis
    ensures name != [] && AllPrintable(name) && IsTrimmed(name) && ':' !in name
  {
    SentMillisWellFormed();
    ReceivedMillisWellFormed();
  }

  lemma TimingHeaderWellFormed(name: string, millis: int)
    requires name == SentMillis || name == ReceivedMillis
    ensures WellFormedHeader(Header(name, DecimalString(millis)))
  {
    TimingNameWellFormed(name);
    DecimalStringIsHeaderValue(millis);
  }

  lemma WrittenHeadersWellFormed(e: Entry)
    requires forall h :: h in e.responseHeaders ==> WellFormedHeader(h)
    ensures forall h :: h in WrittenResponseHeaders(e) ==> WellFormedHeader(h)
  {
    var sent := Header(SentMillis, DecimalString(e.sentRequestMillis));
    var received := Header(ReceivedMillis, DecimalString(e.receivedResponseMillis));
    TimingHeaderWellFormed(SentMillis, e.sentRequestMillis);
    TimingHeaderWellFormed(ReceivedMillis, e.receivedResponseMillis);
    assert WrittenResponseHeaders(e) == e.responseHeaders + [sent, received];
  }

  lemma ReadResponsePartOfText(e: Entry, rest: string)
    requires 100 <= e.code <= 999 && LineSafe(e.message)
    requires (forall h :: h in e.responseHeaders ==> WellFormedHeader(h)) && |e.responseHeaders| + 2 <= IntMax
    requires LongMin <= e.sentRequestMillis <= LongMax && LongMin <= e.receivedResponseMillis <= LongMax
    ensures ReadResponsePart(Line(StatusLineString(StatusLine(e.protocol, e.code, e.message)))
                             + (HeaderBlock(WrittenResponseHeaders(e)) + rest))
         == Success(Read(ResponsePart(StatusLine(WrittenProtocol(e.protocol), e.code, e.message),
                                      Timing(e.sentRequestMillis, e.receivedResponseMillis,
                                             RemoveAll(RemoveAll(e.responseHeaders, SentMillis), ReceivedMillis))),
                         rest))
  {
    var status := StatusLine(e.protocol, e.code, e.message);
    var written := WrittenResponseHeaders(e);
    ReadStatusLineOfLine(status, HeaderBlock(written) + rest);
    WrittenHeadersWellFormed(e);
    ReadHeaderBlockOfBlock(written, rest);
    ExtractTimingOfWritten(e);
  }

  /**
   * The entry a stored record reads back as: the protocol is the one the status line can
   * express, the response headers lose any field named like a timing header, and a handshake
   * survives only on an https url.
   */
  function Restored(e: Entry): Entry {
    e.(protocol := WrittenProtocol(e.protocol),
       responseHeaders := RemoveAll(RemoveAll(e.responseHeaders, SentMillis), ReceivedMillis),
       handshake := if IsHttps(e.url) then e.handshake else None)
  }

  /** Round trip: decoding what writeTo wrote gives the entry back, up to Restored. */
  lemma RoundTrip(e: Entry, security: Security)
    requires security.Lawful() && WellFormedEntry(e, security)
    ensures Decode(Encode(e, security), security) == Success(Restored(e))
  {
    var tail := if IsHttps(e.url) then HandshakeText(e.handshake.value, security) else "";
    var responseText := Line(StatusLineString(StatusLine(e.protocol, e.code, e.message)))
                        + (HeaderBlock(WrittenResponseHeaders(e)) + tail);
    ReadRequestPartOfText(e, responseText);
    ReadResponsePartOfText(e, tail);
    if IsHttps(e.url) {
      ReadHandshakeOfText(e.handshake.value, security);
    }
  }

  /** Missing timing headers decode as 0, and none of their fields survive decoding. */
  lemma MissingTimingIsZero(headers: seq<Header>)
    requires forall i :: 0 <= i < |headers| ==>
      !EqualsIgnoreCase(headers[i].name, SentMillis) && !EqualsIgnoreCase(headers[i].name, ReceivedMillis)
    ensures ExtractTiming(headers) == Success(Timing(0, 0, headers))
  {
  }

  /** An https record whose TLS block does not open with a blank line is rejected. */
  lemma HttpsNeedsBlankLine(url: string, line: string, rest: string, security: Security)
    requires IsHttps(url) && LineSafe(line) && line != []
    ensures ReadHandshakeIfHttps(url, Line(line) + rest, security) == Failure(ExpectedBlank)
  {
    ReadLineOfLine(line, rest);
  }
}
