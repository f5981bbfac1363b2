/**
 * ZanLocalCache: responses stored on disk under a key derived from the request url, one
 * record per key, with the metadata in slot 0 and the body in slot 1.
 */
module LocalCache {
  import opened Wrappers
  import opened JavaText
  import opened Http
  import opened EntryCodec
  import opened EntryStream
  import opened DiskStore

  const ContentTypeName := "Content-Type"
  const ContentLengthName := "Content-Length"

  /** An unchecked exception that leaves the cache's methods. */
  datatype Thrown = NullPointerException

  /** invalidatesCache: only GET and POST, in any case, are cached. */
  predicate InvalidatesCache(httpMethod: string) {
    ToUpperCase(httpMethod) != "GET" && ToUpperCase(httpMethod) != "POST"
  }

  lemma UpperLetter(c: char, w: char)
    requires 'A' <= w <= 'Z'
    ensures ToUpperAscii(c) == w <==> ToLowerAscii(c) == ToLowerAscii(w)
  {
  }

  lemma UpperWord(s: string, word: string)
    requires forall i :: 0 <= i < |word| ==> 'A' <= word[i] <= 'Z'
    ensures ToUpperCase(s) == word <==> EqualsIgnoreCase(s, word)
  {
    if |s| == |word| {
      forall i | 0 <= i < |s|
        ensures ToUpperCase(s)[i] == word[i] <==> ToLowerAscii(s[i]) == ToLowerAscii(word[i])
      {
        UpperLetter(s[i], word[i]);
      }
      if EqualsIgnoreCase(s, word) {
        assert forall i :: 0 <= i < |s| ==> ToUpperCase(s)[i] == word[i];
      }
    }
  }

  /** A method is cached exactly when it is GET or POST up to case. */
  lemma CachedMethods(httpMethod: string)
    ensures !InvalidatesCache(httpMethod) <==> EqualsIgnoreCase(httpMethod, "GET") || EqualsIgnoreCase(httpMethod, "POST")
  {
    UpperWord(httpMethod, "GET");
    UpperWord(httpMethod, "POST");
  }

  /** Entry.matches, as written: the stored url against the request's full url, and the method. */
  predicate MatchesAsWritten(e: Entry, request: Request) {
    e.url == UrlString(request.url) && e.requestMethod == request.httpMethod
  }

  /**
   * A request that carries an access_token parameter never matches the entry stored for it:
   * the stored url has had that parameter removed.
   */
  lemma AccessTokenNeverMatches(e: Entry, request: Request)
    requires e.url == CanonicalUrl(request.url)
    requires exists i :: 0 <= i < |QueryParameters(request.url)| && QueryParameters(request.url)[i].name == AccessToken
    ensures !MatchesAsWritten(e, request)
  {
    RemovingPresentParameterChangesUrl(request.url, AccessToken);
  }

  /** Entry.matches, corrected: the stored url against the request's url without access_token. */
  predicate Matches(e: Entry, request: Request) {
    e.url == CanonicalUrl(request.url) && e.requestMethod == request.httpMethod
  }

  /** The entry made from a response matches the request the response answers. */
  lemma MatchesStoredRequest(response: Response, varyHeaders: seq<Header>)
    ensures Matches(FromResponse(response, varyHeaders), response.request)
  {
  }

  /** Agreeing on everything but access_token, two urls give the same canonical url. */
  lemma CanonicalUrlIgnoresAccessToken(u1: Url, u2: Url)
    requires WellFormedUrl(u1) && WellFormedUrl(u2)
    requires u1.base == u2.base && u1.fragment == u2.fragment
    requires Without(QueryParameters(u1), AccessToken) == Without(QueryParameters(u2), AccessToken)
    ensures CanonicalUrl(u1) == CanonicalUrl(u2)
  {
    RemovedParameterIsIrrelevant(u1, u2, AccessToken);
  }

  /** The body of a cached response: the stored text and the two header values it reports. */
  datatype CacheResponseBody = CacheResponseBody(contentType: Option<string>, contentLength: Option<string>, text: string)

  /**
   * The request a cached response is attributed to: the stored url, method and Vary headers, and
   * whether it carries a request body.
   */
  datatype CachedRequest = CachedRequest(url: string, httpMethod: string, headers: seq<Header>, hasBody: bool)

  /** Entry.response(snapshot). */
  datatype CachedResponse = CachedResponse(
    request: CachedRequest,
    protocol: Protocol,
    code: int,
    message: string,
    headers: seq<Header>,
    body: CacheResponseBody,
    handshake: Option<Handshake>,
    sentRequestAtMillis: int,
    receivedResponseAtMillis: int)

  /** What get throws besides the IOExceptions it catches. */
  datatype GetError =
    | Undecodable(error: DecodeError)  // Entry(Source) failed with an unchecked exception
    | BadCachedRequest                 // Request.Builder.method: IllegalArgumentException
    | NegativeCode                     // Response.Builder.build: IllegalStateException

  /** The response Entry.response builds once the builders accept it. */
  function CachedOf(e: Entry, body: string, hasBody: bool): CachedResponse {
    CachedResponse(
      CachedRequest(e.url, e.requestMethod, e.varyHeaders, hasBody),
      e.protocol, e.code, e.message, e.responseHeaders,
      CacheResponseBody(LastValue(e.responseHeaders, ContentTypeName), LastValue(e.responseHeaders, ContentLengthName), body),
      e.handshake, e.sentRequestMillis, e.receivedResponseMillis)
  }

  /**
   * Entry.response, as written: the cached request always carries a CacheRequestBody, which
   * Request.Builder.method refuses for an empty method or one that permits no body (GET among
   * them); Response.Builder.build refuses a negative code.
   */
  function EntryResponse(e: Entry, body: string): (r: Result<CachedResponse, GetError>)
    ensures r.Failure? <==> !PermitsRequestBody(e.requestMethod) || e.code < 0
    ensures r.Failure? && !PermitsRequestBody(e.requestMethod) ==> r.error == BadCachedRequest
    ensures r.Success? ==> r.value.request.hasBody && r.value.request.url == e.url && r.value.request.httpMethod == e.requestMethod
  {
    if !PermitsRequestBody(e.requestMethod) then Failure(BadCachedRequest)
    else if e.code < 0 then Failure(NegativeCode)
    else Success(CachedOf(e, body, true))
  }

  /**
   * Entry.response, corrected: the cached request carries a body exactly when its method permits
   * one, so every non-empty method is accepted, and a method that requires a body has one.
   */
  function EntryResponseCorrected(e: Entry, body: string): (r: Result<CachedResponse, GetError>)
    ensures r.Failure? <==> e.requestMethod == [] || e.code < 0
    ensures r.Success? ==> r.value.request.hasBody == PermitsRequestBody(e.requestMethod)
    ensures r.Success? && RequiresRequestBody(e.requestMethod) ==> r.value.request.hasBody
    ensures r.Success? ==> r.value.request.url == e.url && r.value.request.httpMethod == e.requestMethod
  {
    if e.requestMethod == [] then Failure(BadCachedRequest)
    else if e.code < 0 then Failure(NegativeCode)
    else Success(CachedOf(e, body, PermitsRequestBody(e.requestMethod)))
  }

  /**
   * Of the methods put stores, only "POST" in exactly that case permits a request body: a stored
   * GET, or a post in any other case, makes Entry.response throw.
   */
  lemma ServableCachedMethods(m: string)
    requires !InvalidatesCache(m)
    ensures PermitsRequestBody(m) <==> m == "POST"
  {
    CachedMethods(m);
    if EqualsIgnoreCase(m, "GET") {
      // The only three-letter method with a body is PUT.
      assert ToLowerAscii(m[0]) == 'g' && m[0] != 'P';
    } else {
      // The four-letter ones are POST and LOCK.
      assert ToLowerAscii(m[2]) == 's' && m[2] != 'C';
    }
  }

  /** CacheResponseBody.contentLength: the stored Content-Length as a long, or -1. */
  function ContentLength(body: CacheResponseBody): (r: int)
    ensures body.contentLength.None? ==> r == -1
    ensures LongMin <= r <= LongMax
  {
    match body.contentLength
    case None => -1
    case Some(text) => ParseLong(text).GetOr(-1)
  }

  /** A Content-Length written as a long reads back as that long. */
  lemma ContentLengthOfDecimal(contentType: Option<string>, n: int, text: string)
    requires LongMin <= n <= LongMax
    ensures ContentLength(CacheResponseBody(contentType, Some(DecimalString(n)), text)) == n
  {
    ParseLongOfDecimal(n);
  }

  /** A Content-Length that is not a long reads as -1. */
  lemma ContentLengthOfMalformed(contentType: Option<string>, value: string, text: string)
    requires ParseLong(value).None?
    ensures ContentLength(CacheResponseBody(contentType, Some(value), text)) == -1
  {
  }

  /** The cache: a store (null when it could not be opened) and the collaborators it calls. */
  class Cache {
    const disk: Store?
    /** Utils.md5Hex. */
    const md5Hex: string -> string
    /** OkHeaders.hasVaryAll and OkHeaders.varyHeaders. */
    const hasVaryAll: Response -> bool
    const varyHeaders: Response -> seq<Header>
    const security: Security

    constructor (disk: Store?, md5Hex: string -> string, hasVaryAll: Response -> bool,
                 varyHeaders: Response -> seq<Header>, security: Security)
      ensures this.disk == disk && this.md5Hex == md5Hex && this.hasVaryAll == hasVaryAll
      ensures this.varyHeaders == varyHeaders && this.security == security
    {
      this.disk := disk;
      this.md5Hex := md5Hex;
      this.hasVaryAll := hasVaryAll;
      this.varyHeaders := varyHeaders;
      this.security := security;
    }

    /** requestToKey: the hash of the url without its access_token parameters. */
    function Key(request: Request): string {
      md5Hex(CanonicalUrl(request.url))
    }

    /** Two requests that differ only in access_token share a key. */
    lemma KeyIgnoresAccessToken(r1: Request, r2: Request)
      requires WellFormedUrl(r1.url) && WellFormedUrl(r2.url)
      requires r1.url.base == r2.url.base && r1.url.fragment == r2.url.fragment
      requires Without(QueryParameters(r1.url), AccessToken) == Without(QueryParameters(r2.url), AccessToken)
      ensures Key(r1) == Key(r2)
    {
      CanonicalUrlIgnoresAccessToken(r1.url, r2.url);
    }

    /** The guards of put that do not depend on the store: a cached method and no "Vary: *". */
    predicate Admits(response: Response) {
      !InvalidatesCache(response.request.httpMethod) && !hasVaryAll(response)
    }

    function StoredEntry(response: Response): Entry {
      FromResponse(response, varyHeaders(response))
    }

    /** writeTo dereferences the handshake of an https entry; a missing one throws. */
    predicate MissingHandshake(response: Response) {
      IsHttps(StoredEntry(response).url) && StoredEntry(response).handshake.None?
    }

    /** What put commits: the encoded entry in slot 0 and the body text in slot 1. */
    function Written(response: Response): Slots
      requires !MissingHandshake(response)
    {
      Slots(Encode(StoredEntry(response), security), response.body.text)
    }

    /**
     * get, on given store contents, up to reading the record: a miss, or a record that does not
     * decode with an IOException, reads as None; the unchecked decode failures leave get.
     */
    function Stored(entries: map<string, Slots>, request: Request): Result<Option<(Entry, string)>, GetError> {
      var key := Key(request);
      if key !in entries then Success(None)
      else
        match Decode(entries[key].metadata, security)
        case Failure(error) => if error.IsIOException() then Success(None) else Failure(Undecodable(error))
        case Success(entry) => Success(Some((entry, entries[key].body)))
    }

    /**
     * get, as written: the response is built before matches is asked, so its failures leave get;
     * an entry that matches is returned, one that does not reads as None.
     */
    function Lookup(entries: map<string, Slots>, request: Request): Result<Option<CachedResponse>, GetError> {
      var stored :- Stored(entries, request);
      if stored.None? then Success(None)
      else
        var response :- EntryResponse(stored.value.0, stored.value.1);
        if MatchesAsWritten(stored.value.0, request) then Success(Some(response)) else Success(None)
    }

    /** get, corrected: Entry.response attaches a body only where permitted, and matches ignores access_token. */
    function LookupCorrected(entries: map<string, Slots>, request: Request): Result<Option<CachedResponse>, GetError> {
      var stored :- Stored(entries, request);
      if stored.None? then Success(None)
      else
        var response :- EntryResponseCorrected(stored.value.0, stored.value.1);
        if Matches(stored.value.0, request) then Success(Some(response)) else Success(None)
    }

    /** put reaches the store: the guards pass and no other editor holds the key. */
    predicate TakesKey(editing: set<string>, response: Response) {
      Admits(response) && Key(response.request) !in editing
    }

    /** The entries after put, from the store's state before it. */
    function PutEntries(entries: map<string, Slots>, editing: set<string>, writable: bool, response: Response): map<string, Slots> {
      if TakesKey(editing, response) && !MissingHandshake(response) && writable
      then entries[Key(response.request) := Written(response)]
      else entries
    }

    /** The keys held by editors after put: one that threw keeps its key held. */
    function PutEditing(editing: set<string>, response: Response): set<string> {
      if TakesKey(editing, response) && MissingHandshake(response) then editing + {Key(response.request)} else editing
    }

    /**
     * put: nothing happens without a store, for a method other than GET/POST, for a response
     * that varies on every header, or while another editor holds the key. Otherwise the
     * metadata and the body are written and committed; a write that fails aborts the edit.
     */
    method Put(response: Response) returns (thrown: Option<Thrown>)
      modifies disk
      ensures disk != null ==> disk.entries == PutEntries(old(disk.entries), old(disk.editing), old(disk.writable), response)
      ensures disk != null ==> disk.editing == PutEditing(old(disk.editing), response) && disk.writable == old(disk.writable)
      ensures thrown.Some? <==> disk != null && TakesKey(old(disk.editing), response) && MissingHandshake(response)
    {
      if disk == null {
        return None;
      }
      if InvalidatesCache(response.request.httpMethod) {
        return None;
      }
      if hasVaryAll(response) {
        return None;
      }
      var entry := FromResponse(response, varyHeaders(response));
      var key := Key(response.request);
      var editor := disk.Edit(key);
      if editor == null {
        return None;
      }
      if IsHttps(entry.url) && entry.handshake.None? {
        return Some(NullPointerException);
      }
      var metadata := WriteTo(entry, security);
      WriteEntry(editor, metadata, response.body.text);
      thrown := None;
    }

    /**
     * The edit put opens: both slots written, then committed; a write the disk refuses aborts
     * the edit instead, and the entries stay as they were.
     */
    method WriteEntry(editor: Editor, metadata: string, body: string)
      requires editor.state == Open && editor.metadata.None? && editor.body.None?
      modifies editor, editor.store
      ensures editor.store.entries == if old(editor.store.writable)
                                      then old(editor.store.entries)[editor.key := Slots(metadata, body)]
                                      else old(editor.store.entries)
      ensures editor.store.editing == old(editor.store.editing) - {editor.key}
      ensures editor.store.writable == old(editor.store.writable)
    {
      var ok := editor.Write(MetadataSlot, metadata);
      if ok {
        ok := editor.Write(BodySlot, body);
      }
      if ok {
        ok := editor.Commit();
      } else {
        editor.Abort();
      }
    }

    /** get: what the store holds for the request's key, read back as Lookup says. */
    method Get(request: Request) returns (r: Result<Option<CachedResponse>, GetError>)
      ensures disk == null ==> r == Success(None)
      ensures disk != null ==> r == Lookup(disk.entries, request)
    {
      if disk == null {
        return Success(None);
      }
      var key := Key(request);
      var snapshot := disk.Get(key);
      if snapshot.None? {
        return Success(None);
      }
      var entry := ReadEntry(snapshot.value.metadata, security);
      if entry.Failure? {
        if entry.error.IsIOException() {
          return Success(None);
        }
        return Failure(Undecodable(entry.error));
      }
      var response := EntryResponse(entry.value, snapshot.value.body);
      if response.Failure? {
        return Failure(response.error);
      }
      if !MatchesAsWritten(entry.value, request) {
        return Success(None);
      }
      r := Success(Some(response.value));
    }

    /**
     * As written, a stored entry whose method permits no request body (every GET, and a post in
     * any case but "POST") makes get throw, for every request that reaches its key.
     */
    lemma StoredGetThrows(entries: map<string, Slots>, response: Response, request: Request)
      requires security.Lawful() && WellFormedEntry(StoredEntry(response), security)
      requires !PermitsRequestBody(response.request.httpMethod)
      requires Key(request) == Key(response.request)
      ensures Lookup(entries[Key(response.request) := Written(response)], request) == Failure(BadCachedRequest)
    {
      RoundTrip(StoredEntry(response), security);
    }

    /**
     * As written, a request that carries access_token is never served: even a POST put under
     * that very request reads back as None.
     */
    lemma GetMissesAccessToken(entries: map<string, Slots>, response: Response)
      requires security.Lawful() && WellFormedEntry(StoredEntry(response), security)
      requires response.request.httpMethod == "POST"
      requires exists i :: 0 <= i < |QueryParameters(response.request.url)| && QueryParameters(response.request.url)[i].name == AccessToken
      ensures Lookup(entries[Key(response.request) := Written(response)], response.request) == Success(None)
    {
      var after, stored := entries[Key(response.request) := Written(response)], Restored(StoredEntry(response));
      RoundTrip(StoredEntry(response), security);
      assert Stored(after, response.request) == Success(Some((stored, response.body.text)));
      AccessTokenNeverMatches(stored, response.request);
      MismatchReadsAsNone(after, response.request, stored, response.body.text);
    }

    /**
     * As written, the one request get serves: a POST, in exact case, whose url carries no
     * access_token reads back as the response put under it, with a request body.
     */
    lemma PutThenGetAsWritten(entries: map<string, Slots>, response: Response)
      requires security.Lawful() && WellFormedEntry(StoredEntry(response), security)
      requires response.request.httpMethod == "POST"
      requires forall i :: 0 <= i < |QueryParameters(response.request.url)| ==> QueryParameters(response.request.url)[i].name != AccessToken
      ensures Lookup(entries[Key(response.request) := Written(response)], response.request)
           == Success(Some(CachedOf(Restored(StoredEntry(response)), response.body.text, true)))
    {
      var request := response.request;
      var after, stored := entries[Key(request) := Written(response)], Restored(StoredEntry(response));
      WithoutAbsent(QueryParameters(request.url), AccessToken);
      assert RemoveAllQueryParameters(request.url, AccessToken) == request.url;
      RoundTrip(StoredEntry(response), security);
      assert Stored(after, request) == Success(Some((stored, response.body.text)));
      assert MatchesAsWritten(stored, request);
      assert PermitsRequestBody(stored.requestMethod) && stored.code >= 0;
      MatchReadsAsServed(after, request, stored, response.body.text);
    }

    /** A record that decodes, rebuilds and matches reads as the rebuilt response. */
    lemma MatchReadsAsServed(entries: map<string, Slots>, request: Request, e: Entry, body: string)
      requires Stored(entries, request) == Success(Some((e, body)))
      requires EntryResponse(e, body).Success? && MatchesAsWritten(e, request)
      ensures Lookup(entries, request) == Success(Some(EntryResponse(e, body).value))
    {
    }

    /** A record that decodes and rebuilds but does not match reads as None. */
    lemma MismatchReadsAsNone(entries: map<string, Slots>, request: Request, e: Entry, body: string)
      requires Stored(entries, request) == Success(Some((e, body)))
      requires EntryResponse(e, body).Success? && !MatchesAsWritten(e, request)
      ensures Lookup(entries, request) == Success(None)
    {
    }

    /**
     * Corrected, a response put under a request is what get returns for any request with the
     * same method whose url differs from it at most in access_token, up to Restored; the cached
     * request carries a body exactly when its method permits one.
     */
    lemma PutThenGet(entries: map<string, Slots>, response: Response, request: Request)
      requires security.Lawful() && WellFormedEntry(StoredEntry(response), security)
      requires !InvalidatesCache(response.request.httpMethod)
      requires request.httpMethod == response.request.httpMethod
      requires WellFormedUrl(request.url) && WellFormedUrl(response.request.url)
      requires request.url.base == response.request.url.base && request.url.fragment == response.request.url.fragment
      requires Without(QueryParameters(request.url), AccessToken) == Without(QueryParameters(response.request.url), AccessToken)
      ensures LookupCorrected(entries[Key(response.request) := Written(response)], request)
           == Success(Some(CachedOf(Restored(StoredEntry(response)), response.body.text,
                                    PermitsRequestBody(response.request.httpMethod))))
    {
      KeyIgnoresAccessToken(request, response.request);
      RoundTrip(StoredEntry(response), security);
    }

    /** removeRequest, corrected: without a store there is nothing to remove. */
    method RemoveRequest(request: Request)
      modifies disk
      ensures disk != null ==>
                disk.entries == if Key(request) in old(disk.editing) then old(disk.entries) else old(disk.entries) - {Key(request)}
      ensures disk != null ==> disk.editing == old(disk.editing) && disk.writable == old(disk.writable)
    {
      if disk == null {
        return;
      }
      var removed := disk.Remove(Key(request));
    }

    /** removeRequest, as written: it dereferences the store without checking it was opened. */
    method RemoveRequestAsWritten(request: Request) returns (thrown: Option<Thrown>)
      modifies disk
      ensures thrown.Some? <==> disk == null
      ensures disk != null ==>
                disk.entries == if Key(request) in old(disk.editing) then old(disk.entries) else old(disk.entries) - {Key(request)}
      ensures disk != null ==> disk.editing == old(disk.editing) && disk.writable == old(disk.writable)
    {
      if disk == null {
        return Some(NullPointerException);
      }
      RemoveRequest(request);
      thrown := None;
    }
  }

  /** How an edit held by a CacheRequestImpl ended. */
  datatype Ending = Closed | Abandoned

  /** CacheRequestImpl: an edit that ends once, by close (commit) or by abort, never both. */
  class CacheRequest {
    const editor: Editor
    var done: bool
    /** The endings that took effect. */
    ghost var endings: seq<Ending>

    ghost predicate Valid()
      reads this, editor
    {
      && |endings| <= 1
      && (done <==> |endings| == 1)
      && (done <==> editor.state != Open)
    }

    constructor (editor: Editor)
      requires editor.state == Open
      ensures this.editor == editor && !done && endings == [] && Valid()
    {
      this.editor := editor;
      done := false;
      endings := [];
    }

    /** The body sink's close: the first ending commits the edit; later calls do nothing. */
    method Close() returns (ok: bool)
      requires Valid()
      modifies this, editor, editor.store
      ensures Valid() && done
      ensures old(done) ==> ok && endings == old(endings) && unchanged(editor) && unchanged(editor.store)
      ensures !old(done) ==> endings == [Closed] && ok == (editor.state == Committed)
      ensures !old(done) ==>
                editor.store.entries ==
                  match Completed(old(editor.metadata), old(editor.body), old(editor.store.Get(editor.key)))
                  case Some(slots) => old(editor.store.entries)[editor.key := slots]
                  case None => old(editor.store.entries)
    {
      if done {
        return true;
      }
      done := true;
      endings := [Closed];
      ok := editor.Commit();
    }

    /** abort: the first ending throws the edit away; later calls do nothing. */
    method Abort()
      requires Valid()
      modifies this, editor, editor.store
      ensures Valid() && done
      ensures old(done) ==> endings == old(endings) && unchanged(editor) && unchanged(editor.store)
      ensures !old(done) ==> endings == [Abandoned] && editor.state == Aborted
      ensures editor.store.entries == old(editor.store.entries)
    {
      if done {
        return;
      }
      done := true;
      endings := [Abandoned];
      editor.Abort();
    }
  }
}
