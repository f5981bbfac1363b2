/**
 * Entry.writeTo and the Entry(Source) constructor as the step-by-step code they are: the
 * writer appends line after line to a sink, the reader consumes the source line after line,
 * filling header lists in loops. Each is proved to compute the codec of EntryCodec.
 */
module EntryStream {
  import opened Wrappers
  import opened JavaText
  import opened Http
  import opened EntryCodec

  lemma {:induction false} HeaderLinesAppend(headers: seq<Header>, h: Header)
    ensures HeaderLines(headers + [h]) == HeaderLines(headers) + HeaderLine(h)
    decreases |headers|
  {
    if headers == [] {
      assert [] + [h] == [h];
      assert HeaderLines([h]) == HeaderLine(h) + HeaderLines([]);
    } else {
      assert (headers + [h])[0] == headers[0];
      assert (headers + [h])[1..] == headers[1..] + [h];
      HeaderLinesAppend(headers[1..], h);
    }
  }

  lemma {:induction false} CertificateLinesAppend(certificates: seq<Certificate>, c: Certificate, security: Security)
    ensures CertificateLines(certificates + [c], security)
         == CertificateLines(certificates, security) + Line(security.base64(c.encoded))
    decreases |certificates|
  {
    if certificates == [] {
      assert [] + [c] == [c];
      assert CertificateLines([c], security) == Line(security.base64(c.encoded)) + CertificateLines([], security);
    } else {
      assert (certificates + [c])[0] == certificates[0];
      assert (certificates + [c])[1..] == certificates[1..] + [c];
      CertificateLinesAppend(certificates[1..], c, security);
    }
  }

  /** The header loop of writeTo: one "name: value" line per header. */
  method WriteHeaders(headers: seq<Header>) returns (text: string)
    ensures text == HeaderLines(headers)
  {
    text := "";
    for i := 0 to |headers|
      invariant text == HeaderLines(headers[..i])
    {
      assert headers[..i + 1] == headers[..i] + [headers[i]];
      HeaderLinesAppend(headers[..i], headers[i]);
      text := text + headers[i].name + ": " + headers[i].value + "\n";
    }
    assert headers[..|headers|] == headers;
  }

  /** writeCertList: the count, then each certificate's base64 text on its own line. */
  method WriteCertList(certificates: seq<Certificate>, security: Security) returns (text: string)
    ensures text == CertificateBlock(certificates, security)
  {
    text := DecimalString(|certificates|) + "\n";
    for i := 0 to |certificates|
      invariant text == CountLine(|certificates|) + CertificateLines(certificates[..i], security)
    {
      assert certificates[..i + 1] == certificates[..i] + [certificates[i]];
      CertificateLinesAppend(certificates[..i], certificates[i], security);
      var line := security.base64(certificates[i].encoded);
      text := text + line + "\n";
    }
    assert certificates[..|certificates|] == certificates;
  }

  /** The https part of writeTo: blank line, cipher suite, both chains, TLS version if known. */
  method WriteHandshake(handshake: Handshake, security: Security) returns (text: string)
    ensures text == HandshakeText(handshake, security)
  {
    text := Line("");
    text := text + Line(handshake.cipherSuite);
    var peer := WriteCertList(handshake.peerCertificates, security);
    text := text + peer;
    var local := WriteCertList(handshake.localCertificates, security);
    text := text + local;
    var tls := "";
    if handshake.tlsVersion.Some? {
      tls := Line(handshake.tlsVersion.value);
    }
    text := text + tls;
    Associate(Line(""), Line(handshake.cipherSuite), peer, local, tls);
  }

  /** Regroups the five pieces of the handshake text the way HandshakeText nests them. */
  lemma Associate(a: string, b: string, c: string, d: string, e: string)
    ensures a + b + c + d + e == a + (b + (c + (d + e)))
  {
  }

  /** Regroups the six pieces of the metadata text the way Encode nests them. */
  lemma AssociateSix(a: string, b: string, c: string, d: string, e: string, f: string)
    ensures a + b + c + d + e + f == a + (b + (c + (d + (e + f))))
  {
  }

  /** writeTo: the metadata text, written field by field. */
  method WriteTo(e: Entry, security: Security) returns (sink: string)
    requires IsHttps(e.url) ==> e.handshake.Some?
    ensures sink == Encode(e, security)
  {
    sink := Line(e.url);
    sink := sink + Line(e.requestMethod);
    var varyCount := CountLine(|e.varyHeaders|);
    var varyLines := WriteHeaders(e.varyHeaders);
    sink := sink + (varyCount + varyLines);

    var statusLine := Line(StatusLineString(StatusLine(e.protocol, e.code, e.message)));
    sink := sink + statusLine;
    var responseCount := CountLine(|e.responseHeaders| + 2);
    var responseLines := WriteHeaders(e.responseHeaders);
    var sent := Header(SentMillis, DecimalString(e.sentRequestMillis));
    var received := Header(ReceivedMillis, DecimalString(e.receivedResponseMillis));
    responseLines := responseLines + HeaderLine(sent);
    responseLines := responseLines + HeaderLine(received);
    assert WrittenResponseHeaders(e) == (e.responseHeaders + [sent]) + [received];
    HeaderLinesAppend(e.responseHeaders, sent);
    HeaderLinesAppend(e.responseHeaders + [sent], received);
    sink := sink + (responseCount + responseLines);

    var tls := "";
    if IsHttps(e.url) {
      tls := WriteHandshake(e.handshake.value, security);
    }
    sink := sink + tls;
    AssociateSix(Line(e.url), Line(e.requestMethod), HeaderBlock(e.varyHeaders), statusLine,
                 HeaderBlock(WrittenResponseHeaders(e)), tls);
  }

  // ---------------------------------------------------------------------------------------
  // Reading.

  /** One step of the header loop: a line, its header, then the remaining lines. */
  lemma ReadHeaderLinesStep(s: string, n: nat)
    requires n > 0
    ensures ReadLine(s).Failure? ==> ReadHeaderLines(s, n) == Failure(EndOfInput)
    ensures ReadLine(s).Success? && ParseHeaderLine(ReadLine(s).value.value).Failure? ==>
              ReadHeaderLines(s, n) == Failure(BadHeaderLine)
    ensures ReadLine(s).Success? && ParseHeaderLine(ReadLine(s).value.value).Success? ==>
              ReadHeaderLines(s, n)
              == Prepend([ParseHeaderLine(ReadLine(s).value.value).value], ReadHeaderLines(ReadLine(s).value.rest, n - 1))
  {
  }

  /** The loop of Entry(Source) that feeds count lines to Headers.Builder.add(line). */
  method ReadHeaders(source: string, count: nat) returns (r: Result<Read<seq<Header>>, DecodeError>)
    ensures r == ReadHeaderLines(source, count)
  {
    var builder: seq<Header> := [];
    var rest := source;
    PrependNothing(ReadHeaderLines(source, count));
    for i := 0 to count
      invariant ReadHeaderLines(source, count) == Prepend(builder, ReadHeaderLines(rest, count - i))
    {
      ReadHeaderLinesStep(rest, count - i);
      var line := ReadLine(rest);
      if line.Failure? {
        return Failure(line.error);
      }
      var header := ParseHeaderLine(line.value.value);
      if header.Failure? {
        return Failure(header.error);
      }
      PrependTwice(builder, [header.value], ReadHeaderLines(line.value.rest, count - i - 1));
      builder := builder + [header.value];
      rest := line.value.rest;
    }
    r := Success(Read(builder, rest));
    assert builder + [] == builder;
  }

  /** One pass of the certificate loop: a line, its base64 bytes, then the certificate. */
  method ReadCertificateLine(source: string, security: Security) returns (r: Result<Read<Certificate>, DecodeError>)
    ensures r == ReadCertificate(source, security)
  {
    var line :- ReadLine(source);
    var bytes := security.decodeBase64(line.value);
    if bytes.None? {
      return Failure(BadBase64);
    }
    var certificate := security.generateCertificate(bytes.value);
    if certificate.None? {
      return Failure(BadCertificate);
    }
    r := Success(Read(certificate.value, line.rest));
  }

  /** The certificates read so far, followed by one more read of a certificate line. */
  function Extend(done: Read<seq<Certificate>>, c: Result<Read<Certificate>, DecodeError>): Result<Read<seq<Certificate>>, DecodeError> {
    if c.Failure? then Failure(c.error) else Success(Read(done.value + [c.value.value], c.value.rest))
  }

  lemma PrependExtend(xs: seq<Certificate>, done: Read<seq<Certificate>>, c: Result<Read<Certificate>, DecodeError>)
    ensures Prepend(xs, Extend(done, c)) == Extend(Read(xs + done.value, done.rest), c)
  {
    if c.Success? {
      assert xs + (done.value + [c.value.value]) == (xs + done.value) + [c.value.value];
    }
  }

  /**
   * A list of at least one certificate: a first line that fails is the list's failure, and one
   * that reads puts its certificate in front of the rest.
   */
  lemma ReadCertificatesCons(s: string, n: nat, security: Security)
    requires n > 0
    ensures ReadCertificate(s, security).Failure? ==>
              ReadCertificates(s, n, security) == Failure(ReadCertificate(s, security).error)
    ensures ReadCertificate(s, security).Success? ==>
              ReadCertificates(s, n, security)
              == Prepend([ReadCertificate(s, security).value.value],
                         ReadCertificates(ReadCertificate(s, security).value.rest, n - 1, security))
  {
  }

  /** Reading i + 1 certificates is reading i, then one more line. */
  lemma {:induction false} ReadCertificatesSnoc(s: string, i: nat, security: Security)
    requires ReadCertificates(s, i, security).Success?
    ensures ReadCertificates(s, i + 1, security)
         == Extend(ReadCertificates(s, i, security).value,
                   ReadCertificate(ReadCertificates(s, i, security).value.rest, security))
    decreases i
  {
    if i == 0 {
      var c := ReadCertificate(s, security);
      if c.Success? {
        ReadCertificatesCons(s, 1, security);
        assert [c.value.value] + [] == [] + [c.value.value];
      }
    } else {
      var first := ReadCertificate(s, security).value;
      ReadCertificatesCons(s, i, security);
      ReadCertificatesCons(s, i + 1, security);
      ReadCertificatesSnoc(first.rest, i - 1, security);
      var more := ReadCertificates(first.rest, i - 1, security).value;
      assert ReadCertificates(s, i, security).value == Read([first.value] + more.value, more.rest);
      PrependExtend([first.value], more, ReadCertificate(more.rest, security));
    }
  }

  /** A list that fails to read fails the same way with one more certificate asked for. */
  lemma {:induction false} ReadCertificatesFailedStep(s: string, m: nat, security: Security)
    requires ReadCertificates(s, m, security).Failure?
    ensures ReadCertificates(s, m + 1, security) == ReadCertificates(s, m, security)
    decreases m
  {
    var c := ReadCertificate(s, security);
    ReadCertificatesCons(s, m, security);
    ReadCertificatesCons(s, m + 1, security);
    if c.Success? {
      ReadCertificatesFailedStep(c.value.rest, m - 1, security);
    }
  }

  /** Once the certificates read so far fail, reading more fails the same way. */
  lemma {:induction false} ReadCertificatesFailed(s: string, i: nat, n: nat, security: Security)
    requires i <= n && ReadCertificates(s, i, security).Failure?
    ensures ReadCertificates(s, n, security) == ReadCertificates(s, i, security)
    decreases n
  {
    if i < n {
      ReadCertificatesFailed(s, i, n - 1, security);
      ReadCertificatesFailedStep(s, n - 1, security);
    }
  }

  /** The loop of readCertificateList: count lines, each a base64 certificate. */
  method ReadCertificateLines(source: string, count: nat, security: Security)
    returns (r: Result<Read<seq<Certificate>>, DecodeError>)
    ensures r == ReadCertificates(source, count, security)
  {
    var result: seq<Certificate> := [];
    var rest := source;
    for i := 0 to count
      invariant ReadCertificates(source, i, security) == Success(Read(result, rest))
    {
      var certificate := ReadCertificateLine(rest, security);
      ReadCertificatesSnoc(source, i, security);
      assert ReadCertificates(source, i + 1, security) == Extend(Read(result, rest), certificate);
      if certificate.Failure? {
        ReadCertificatesFailed(source, i + 1, count, security);
        return Failure(certificate.error);
      }
      result := result + [certificate.value.value];
      rest := certificate.value.rest;
    }
    r := Success(Read(result, rest));
  }

  /**
   * readCertificateList: the count, then its certificates. readInt has refused a negative
   * count already, so the method has no branch for the -1 marker.
   */
  method ReadCertificateChain(source: string, security: Security) returns (r: Result<Read<seq<Certificate>>, DecodeError>)
    ensures r == ReadCertificateList(source, security)
  {
    var length := ReadInt(source);
    if length.Failure? {
      return Failure(length.error);
    }
    r := ReadCertificateLines(length.value.rest, length.value.value, security);
  }

  /** The https block of Entry(Source): the blank line, the cipher suite, both chains, the TLS version. */
  method ReadHandshakeBlock(source: string, security: Security) returns (r: Result<Read<Handshake>, DecodeError>)
    ensures r == ReadHandshake(source, security)
  {
    var blank :- ReadLine(source);
    if blank.value != [] {
      return Failure(ExpectedBlank);
    }
    var cipherSuite :- ReadLine(blank.rest);
    if !security.isCipherSuite(cipherSuite.value) {
      return Failure(UnknownCipherSuite);
    }
    r := ReadChainsBlock(cipherSuite.value, cipherSuite.rest, security);
  }

  /** Both certificate chains, then the TLS version line when input remains. */
  method ReadChainsBlock(cipherSuite: string, source: string, security: Security) returns (r: Result<Read<Handshake>, DecodeError>)
    ensures r == ReadChains(cipherSuite, source, security)
  {
    var peerCertificates :- ReadCertificateChain(source, security);
    var localCertificates :- ReadCertificateChain(peerCertificates.rest, security);
    var tlsVersion: Option<string> := None;
    var rest := localCertificates.rest;
    if rest != [] {
      var line :- ReadLine(rest);
      if !security.isTlsVersion(line.value) {
        return Failure(UnknownTlsVersion);
      }
      tlsVersion := Some(line.value);
      rest := line.rest;
    }
    r := Success(Read(Handshake(tlsVersion, cipherSuite, peerCertificates.value, localCertificates.value), rest));
  }

  /** Entry(Source): the fields read back one line at a time, in the order writeTo wrote them. */
  method ReadEntry(source: string, security: Security) returns (r: Result<Entry, DecodeError>)
    ensures r == Decode(source, security)
  {
    var url :- ReadLine(source);
    var requestMethod :- ReadLine(url.rest);
    var varyCount :- ReadInt(requestMethod.rest);
    var varyHeaders :- ReadHeaders(varyCount.rest, varyCount.value);
    assert ReadRequestPart(source) == Success(Read(RequestPart(url.value, requestMethod.value, varyHeaders.value), varyHeaders.rest));

    var statusLine :- ReadStatusLine(varyHeaders.rest);
    var responseCount :- ReadInt(statusLine.rest);
    var responseHeaders :- ReadHeaders(responseCount.rest, responseCount.value);
    var timing :- ExtractTiming(responseHeaders.value);
    assert ReadResponsePart(varyHeaders.rest) == Success(Read(ResponsePart(statusLine.value, timing), responseHeaders.rest));

    var handshake: Option<Handshake> := None;
    if IsHttps(url.value) {
      var block :- ReadHandshakeBlock(responseHeaders.rest, security);
      handshake := Some(block.value);
    }
    var status := statusLine.value;
    r := Success(Entry(url.value, varyHeaders.value, requestMethod.value, status.protocol, status.code, status.message,
                       timing.headers, handshake, timing.sent, timing.received));
  }
}
