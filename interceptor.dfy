/**
 * ZanCacheInterceptor: chooses a cache policy for each call, and on the cache-open path sends
 * the request without its ZanCache header, buffers the body and offers the response to the
 * cache.
 */
module Interceptor {
  import opened Wrappers
  import opened JavaText
  import opened Http
  import opened CacheControl
  import opened LocalCache

  /** NetworkUtils.getState: the kind of connection the device has, NetworkNone when offline. */
  datatype NetworkState = NetworkNone | Wifi | Network2G | Network3G | Network4G | Mobile

  /** What intercept throws: the transport's IOException, or what put throws. */
  datatype Exception = IOException | Unchecked(thrown: Thrown)

  /** Offline the policy is only-if-cached, whatever the headers say; otherwise they decide. */
  function SelectPolicy(state: NetworkState, headers: seq<Header>): Policy {
    if state == NetworkNone then CreateOnlyIfCache() else Parsed(headers)
  }

  /** Offline, the cache is open for reading but not for writing. */
  lemma OfflineIsCacheOpen(state: NetworkState, headers: seq<Header>)
    requires state == NetworkNone
    ensures SelectPolicy(state, headers).IsCacheOpen()
    ensures SelectPolicy(state, headers).IsReadCacheOpen() && !SelectPolicy(state, headers).IsWriteCacheOpen()
  {
  }

  /** Online, a request without any recognised directive takes the pass-through path. */
  lemma PlainRequestPassesThrough(state: NetworkState, headers: seq<Header>)
    requires state != NetworkNone
    requires forall d :: d in AllDirectives(headers) ==> !IsRecognised(d.name)
    ensures !SelectPolicy(state, headers).IsCacheOpen()
  {
    NoRecognisedDirective(headers);
  }

  /** The request sent on the cache-open path: the original without any ZanCache header. */
  function Forwarded(request: Request): (r: Request)
    ensures r.httpMethod == request.httpMethod && r.url == request.url
    ensures forall h :: h in r.headers <==> h in request.headers && !EqualsIgnoreCase(h.name, CacheHeader)
  {
    request.(headers := RemoveAll(request.headers, CacheHeader))
  }

  /**
   * The response rebuilt around the body text read from it: only the body changes, and its
   * content type gains a utf-8 charset when it had none.
   */
  function Rebuilt(response: Response, text: string): (r: Response)
    ensures r.(body := response.body) == response
    ensures r.body.Buffered? && r.body.text == text
    ensures r.body.contentType.None? <==> response.body.contentType.None?
    ensures r.body.contentType.Some? ==> r.body.contentType.value.charset.Some?
    ensures response.body.contentType.Some? && response.body.contentType.value.charset.Some? ==>
              r.body.contentType == response.body.contentType
  {
    response.(body := CreateBody(response.body.contentType, text))
  }

  /** The chain an interceptor runs in: its request, and the transport behind proceed. */
  class Chain {
    const request: Request
    /** The rest of the chain; None stands for the IOException it throws. */
    const transport: Request -> Option<Response>
    /** Every request proceed has been called with, in order. */
    var forwarded: seq<Request>

    constructor (request: Request, transport: Request -> Option<Response>)
      ensures this.request == request && this.transport == transport && forwarded == []
    {
      this.request := request;
      this.transport := transport;
      forwarded := [];
    }

    method Proceed(r: Request) returns (response: Option<Response>)
      modifies this
      ensures forwarded == old(forwarded) + [r] && response == transport(r)
    {
      forwarded := forwarded + [r];
      response := transport(r);
    }
  }

  class CacheInterceptor {
    /** ZanLocalCache.getInstance(). */
    const cache: Cache
    /** The ResponseAvailable callback; None when it is null. */
    const responseAvailable: Option<string -> bool>

    constructor (cache: Cache, responseAvailable: Option<string -> bool>)
      ensures this.cache == cache && this.responseAvailable == responseAvailable
    {
      this.cache := cache;
      this.responseAvailable := responseAvailable;
    }

    /** The response is offered to the cache exactly when the callback exists and accepts the text. */
    predicate Offers(text: string) {
      responseAvailable.Some? && responseAvailable.value(text)
    }

    /**
     * intercept. On the cache-open path the request goes out once without its ZanCache header,
     * the body is read into a string, the rebuilt response is put when Offers says so, and the
     * rebuilt response is returned. Otherwise the request goes out unchanged and its response
     * comes back unchanged. The cache is never read here, and a failing transport fails the call.
     */
    method Intercept(chain: Chain, state: NetworkState) returns (r: Result<Response, Exception>)
      modifies chain, cache.disk
      ensures var open := SelectPolicy(state, chain.request.headers).IsCacheOpen();
              var sent := if open then Forwarded(chain.request) else chain.request;
              chain.forwarded == old(chain.forwarded) + [sent]
      ensures !SelectPolicy(state, chain.request.headers).IsCacheOpen() ==>
                && r == (match chain.transport(chain.request)
                         case None => Failure(IOException)
                         case Some(response) => Success(response))
                && (cache.disk != null ==> unchanged(cache.disk))
      ensures SelectPolicy(state, chain.request.headers).IsCacheOpen() && chain.transport(Forwarded(chain.request)).None? ==>
                r == Failure(IOException) && (cache.disk != null ==> unchanged(cache.disk))
      ensures SelectPolicy(state, chain.request.headers).IsCacheOpen() && chain.transport(Forwarded(chain.request)).Some? ==>
                var response := chain.transport(Forwarded(chain.request)).value;
                var rebuilt := Rebuilt(response, response.body.text);
                && (!Offers(response.body.text) ==> r == Success(rebuilt) && (cache.disk != null ==> unchanged(cache.disk)))
                && (Offers(response.body.text) && cache.disk != null ==>
                      && cache.disk.entries == cache.PutEntries(old(cache.disk.entries), old(cache.disk.editing), old(cache.disk.writable), rebuilt)
                      && cache.disk.editing == cache.PutEditing(old(cache.disk.editing), rebuilt)
                      && cache.disk.writable == old(cache.disk.writable)
                      && r == (if cache.TakesKey(old(cache.disk.editing), rebuilt) && cache.MissingHandshake(rebuilt)
                               then Failure(Unchecked(NullPointerException)) else Success(rebuilt)))
                && (Offers(response.body.text) && cache.disk == null ==> r == Success(rebuilt))
    {
      var request := chain.request;
      var policy: Policy;
      if state == NetworkNone {
        policy := CreateOnlyIfCache();
      } else {
        policy := Parse(request.headers);
      }
      if policy.IsCacheOpen() {
        var newRequest := Forwarded(request);
        var checkResponse := chain.Proceed(newRequest);
        if checkResponse.None? {
          return Failure(IOException);
        }
        var text := checkResponse.value.body.text;
        var rebuilt := Rebuilt(checkResponse.value, text);
        if responseAvailable.Some? && responseAvailable.value(text) {
          var thrown := cache.Put(rebuilt);
          if thrown.Some? {
            assert thrown.value == NullPointerException;
            return Failure(Unchecked(thrown.value));
          }
        }
        r := Success(rebuilt);
      } else {
        var response := chain.Proceed(request);
        if response.None? {
          return Failure(IOException);
        }
        r := Success(response.value);
      }
    }
  }
}
