/**
 * The okhttp values the cache reads and builds: header lists, urls, requests, responses
 * and status lines. Only the behaviour the cache depends on is modelled.
 */
module Http {
  import opened Wrappers
  import opened JavaText

  /** One header field; a header list keeps duplicates and order, as okhttp's Headers does. */
  datatype Header = Header(name: string, value: string)

  /** Headers.get(name): the value of the LAST field whose name matches, ignoring case. */
  function LastValue(headers: seq<Header>, name: string): (r: Option<string>)
    ensures r.None? <==> forall i :: 0 <= i < |headers| ==> !EqualsIgnoreCase(headers[i].name, name)
  {
    if headers == [] then None
    else if EqualsIgnoreCase(headers[|headers| - 1].name, name) then Some(headers[|headers| - 1].value)
    else LastValue(headers[..|headers| - 1], name)
  }

  lemma LastValueOfAppended(headers: seq<Header>, h: Header, name: string)
    ensures LastValue(headers + [h], name)
         == if EqualsIgnoreCase(h.name, name) then Some(h.value) else LastValue(headers, name)
  {
    assert (headers + [h])[..|headers|] == headers;
  }

  /**
   * Headers.Builder.removeAll(name) and Request.Builder.removeHeader(name): every field whose
   * name matches, ignoring case, is dropped; the others stay, in order.
   */
  function RemoveAll(headers: seq<Header>, name: string): (r: seq<Header>)
    ensures forall i :: 0 <= i < |r| ==> !EqualsIgnoreCase(r[i].name, name)
    ensures forall h :: h in r ==> h in headers
    ensures forall h :: h in headers && !EqualsIgnoreCase(h.name, name) ==> h in r
    ensures (forall i :: 0 <= i < |headers| ==> !EqualsIgnoreCase(headers[i].name, name)) ==> r == headers
  {
    if headers == [] then []
    else
      var rest := RemoveAll(headers[1..], name);
      if EqualsIgnoreCase(headers[0].name, name) then rest else [headers[0]] + rest
  }

  /** Removing from a concatenation removes from each part. */
  lemma {:induction false} RemoveAllAppend(a: seq<Header>, b: seq<Header>, name: string)
    ensures RemoveAll(a + b, name) == RemoveAll(a, name) + RemoveAll(b, name)
    decreases |a|
  {
    if a == [] {
      assert a + b == b;
    } else {
      assert (a + b)[0] == a[0];
      assert (a + b)[1..] == a[1..] + b;
      RemoveAllAppend(a[1..], b, name);
    }
  }

  /** One query parameter in canonical (encoded) form; a missing value has no '='. */
  datatype QueryParameter = QueryParameter(name: string, value: Option<string>)

  /**
   * An HttpUrl: everything before the query, the query's name/value pairs (None when the url
   * has no '?'), and the fragment.
   */
  datatype Url = Url(base: string, query: Option<seq<QueryParameter>>, fragment: Option<string>)

  /** HttpUrl never holds an empty query list: a bare '?' parses as one empty parameter. */
  predicate WellFormedUrl(u: Url) {
    u.query != Some([])
  }

  function QueryParameters(u: Url): seq<QueryParameter> {
    u.query.GetOr([])
  }

  function ParameterString(p: QueryParameter): string {
    p.name + (if p.value.Some? then "=" + p.value.value else "")
  }

  /** The query as HttpUrl writes it: parameters joined by '&'. */
  function QueryString(ps: seq<QueryParameter>): string {
    if ps == [] then ""
    else if |ps| == 1 then ParameterString(ps[0])
    else ParameterString(ps[0]) + "&" + QueryString(ps[1..])
  }

  /** HttpUrl.toString(). */
  function UrlString(u: Url): string {
    u.base
    + (if u.query.Some? then "?" + QueryString(u.query.value) else "")
    + (if u.fragment.Some? then "#" + u.fragment.value else "")
  }

  /** The parameters not named name, in order. */
  function Without(ps: seq<QueryParameter>, name: string): (r: seq<QueryParameter>)
    ensures |r| <= |ps|
    ensures forall i :: 0 <= i < |r| ==> r[i].name != name
    ensures forall p :: p in ps && p.name != name ==> p in r
    ensures forall p :: p in r ==> p in ps
  {
    if ps == [] then []
    else if ps[0].name == name then Without(ps[1..], name)
    else [ps[0]] + Without(ps[1..], name)
  }

  /**
   * HttpUrl.Builder.removeAllQueryParameters(name): the query loses every parameter called
   * name, and disappears altogether once a removal leaves it empty.
   */
  function RemoveAllQueryParameters(u: Url, name: string): (r: Url)
    ensures r.base == u.base && r.fragment == u.fragment
    ensures QueryParameters(r) == Without(QueryParameters(u), name)
    ensures WellFormedUrl(u) ==> WellFormedUrl(r)
    ensures WellFormedUrl(u) ==> (r.query.None? <==> Without(QueryParameters(u), name) == [])
  {
    match u.query
    case None => u
    case Some(ps) =>
      var kept := Without(ps, name);
      if kept == [] && ps != [] then u.(query := None) else u.(query := Some(kept))
  }

  /**
   * Two well-formed urls that agree on everything except parameters called name print the
   * same once those parameters are removed.
   */
  lemma RemovedParameterIsIrrelevant(u1: Url, u2: Url, name: string)
    requires WellFormedUrl(u1) && WellFormedUrl(u2)
    requires u1.base == u2.base && u1.fragment == u2.fragment
    requires Without(QueryParameters(u1), name) == Without(QueryParameters(u2), name)
    ensures UrlString(RemoveAllQueryParameters(u1, name)) == UrlString(RemoveAllQueryParameters(u2, name))
  {
    var r1, r2 := RemoveAllQueryParameters(u1, name), RemoveAllQueryParameters(u2, name);
    assert r1.query == r2.query by {
      if r1.query.Some? {
        assert r2.query.Some?;
      }
    }
  }

  /** Removing a parameter that is absent keeps every parameter, in order. */
  lemma {:induction false} WithoutAbsent(ps: seq<QueryParameter>, name: string)
    requires forall i :: 0 <= i < |ps| ==> ps[i].name != name
    ensures Without(ps, name) == ps
  {
    if ps != [] {
      WithoutAbsent(ps[1..], name);
    }
  }

  /** Dropping parameters never lengthens the query, and dropping one shortens it. */
  lemma {:induction false} QueryStringWithoutShorter(ps: seq<QueryParameter>, name: string)
    requires name != ""
    ensures |QueryString(Without(ps, name))| <= |QueryString(ps)|
    ensures (exists i :: 0 <= i < |ps| && ps[i].name == name) ==>
              |QueryString(Without(ps, name))| < |QueryString(ps)|
  {
    if ps != [] {
      var t := ps[1..];
      QueryStringWithoutShorter(t, name);
      if exists i :: 0 <= i < |ps| && ps[i].name == name {
        var i :| 0 <= i < |ps| && ps[i].name == name;
        if i > 0 {
          assert t[i - 1].name == name;
        }
      }
    }
  }

  /** Removing a parameter that is present changes the printed url. */
  lemma RemovingPresentParameterChangesUrl(u: Url, name: string)
    requires name != ""
    requires exists i :: 0 <= i < |QueryParameters(u)| && QueryParameters(u)[i].name == name
    ensures UrlString(RemoveAllQueryParameters(u, name)) != UrlString(u)
  {
    var r := RemoveAllQueryParameters(u, name);
    var ps := QueryParameters(u);
    QueryStringWithoutShorter(ps, name);
    assert |UrlString(r)| < |UrlString(u)|;
  }

  datatype Request = Request(httpMethod: string, url: Url, headers: seq<Header>)

  datatype Protocol = Http10 | Http11 | Spdy3 | Http2

  /** A certificate, identified by its encoded (DER) form, as Certificate.getEncoded() gives it. */
  datatype Certificate = Certificate(encoded: seq<bv8>)

  /** A TLS handshake summary; the cipher suite and TLS version are held by their Java names. */
  datatype Handshake = Handshake(
    tlsVersion: Option<string>,
    cipherSuite: string,
    peerCertificates: seq<Certificate>,
    localCertificates: seq<Certificate>)

  /** okhttp's MediaType: its text, and the value of its charset parameter if it has one. */
  datatype MediaType = MediaType(text: string, charset: Option<string>)

  /** A response body: the transport's single-read stream, or text already buffered in memory. */
  datatype Body =
    | Streamed(contentType: Option<MediaType>, text: string)
    | Buffered(contentType: Option<MediaType>, text: string)

  /**
   * ResponseBody.create(contentType, text): text is encoded in the content type's charset, and a
   * content type without one is replaced by the same type with "; charset=utf-8" appended.
   */
  function CreateBody(contentType: Option<MediaType>, text: string): (r: Body)
    ensures r.Buffered? && r.text == text
    ensures r.contentType.None? <==> contentType.None?
    ensures r.contentType.Some? ==> r.contentType.value.charset.Some?
    ensures contentType.Some? && contentType.value.charset.Some? ==> r.contentType == contentType
    ensures contentType.Some? && contentType.value.charset.None? ==>
              r.contentType.value.text == contentType.value.text + "; charset=utf-8"
  {
    match contentType
    case None => Buffered(None, text)
    case Some(t) =>
      if t.charset.Some? then Buffered(contentType, text)
      else Buffered(Some(MediaType(t.text + "; charset=utf-8", Some("utf-8"))), text)
  }

  /**
   * HttpMethod.requiresRequestBody of okhttp 3.0 to 3.3, the okhttp line whose internal packages
   * the cache imports: the names compare with exact case.
   */
  predicate RequiresRequestBody(m: string) {
    m == "POST" || m == "PUT" || m == "PATCH" || m == "PROPPATCH" || m == "REPORT"
  }

  /** HttpMethod.permitsRequestBody of okhttp 3.0 to 3.3. */
  predicate PermitsRequestBody(m: string) {
    RequiresRequestBody(m) || m == "OPTIONS" || m == "DELETE" || m == "PROPFIND" || m == "MKCOL" || m == "LOCK"
  }

  datatype Response = Response(
    request: Request,
    protocol: Protocol,
    code: int,
    message: string,
    headers: seq<Header>,
    handshake: Option<Handshake>,
    sentRequestAtMillis: int,
    receivedResponseAtMillis: int,
    body: Body)

  /** okhttp's StatusLine. */
  datatype StatusLine = StatusLine(protocol: Protocol, code: int, message: string)

  /** StatusLine.toString(): every protocol but HTTP/1.0 is written as HTTP/1.1. */
  function StatusLineString(s: StatusLine): string {
    (if s.protocol == Http10 then "HTTP/1.0" else "HTTP/1.1") + " " + DecimalString(s.code) + " " + s.message
  }

  /** The protocol a written status line reads back as. */
  function WrittenProtocol(p: Protocol): Protocol {
    if p == Http10 then Http10 else Http11
  }

  /**
   * StatusLine.parse(line): "HTTP/1.0 " or "HTTP/1.1 " (or Shoutcast's "ICY "), a three
   * character code that Integer.parseInt accepts, then optionally a space and the message.
   * None stands for the ProtocolException it throws otherwise.
   */
  function ParseStatusLine(line: string): (r: Option<StatusLine>)
    ensures r.Some? ==> r.value.protocol == Http10 || r.value.protocol == Http11
  {
    var head :=
      if "HTTP/1." <= line then
        if |line| < 9 || line[8] != ' ' then None
        else if line[7] == '0' then Some((Http10, 9))
        else if line[7] == '1' then Some((Http11, 9))
        else None
      else if "ICY " <= line then Some((Http10, 4))
      else None;
    if head.None? then None
    else
      var protocol, codeStart := head.value.0, head.value.1;
      if |line| < codeStart + 3 then None
      else
        var code := ParseLong(line[codeStart..codeStart + 3]);
        if code.None? then None
        else if |line| > codeStart + 3 && line[codeStart + 3] != ' ' then None
        else Some(StatusLine(protocol, code.value, if |line| > codeStart + 3 then line[codeStart + 4..] else ""))
  }

  lemma NatDigitsOfThreeDigitNumber(n: nat)
    requires 100 <= n <= 999
    ensures |NatDigits(n)| == 3
  {
    assert |NatDigits(n / 10)| == 2 by {
      assert NatDigits(n / 10) == NatDigits(n / 100) + [DigitChar(n / 10 % 10)];
    }
  }

  /** A status line with a three-digit code reads back as written, up to WrittenProtocol. */
  lemma StatusLineRoundTrip(s: StatusLine)
    requires 100 <= s.code <= 999
    ensures ParseStatusLine(StatusLineString(s)) == Some(s.(protocol := WrittenProtocol(s.protocol)))
  {
    var line := StatusLineString(s);
    var digits := DecimalString(s.code);
    NatDigitsOfThreeDigitNumber(s.code);
    var prefix := if s.protocol == Http10 then "HTTP/1.0" else "HTTP/1.1";
    assert line == prefix + " " + digits + " " + s.message;
    assert "HTTP/1." <= line;
    assert |prefix + " "| == 9 && |digits| == 3;
    assert line == (prefix + " ") + digits + (" " + s.message);
    assert line[9..12] == digits;
    assert line[12] == ' ';
    assert line[13..] == s.message;
    ParseLongOfDecimal(s.code);
  }
}
