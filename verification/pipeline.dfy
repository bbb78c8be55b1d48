/**
 * The body of the accept loop of start_proxy (src/proxy.c): one client
 * connection taken from its request to the reply, as a pure transition of
 * the cache and the usage counter. Everything outside the cache that the
 * connection meets is an input: the request read_http_request returned (None
 * for NULL), whether caching is on, the clock, whether the LRU key copy can
 * be allocated, and what connect_to_host plus forward_request give back.
 * A read from the server that never ends leaves the proxy waiting on that
 * connection for ever, so no later connection is accepted.
 */
module Pipeline {
  import opened Wrappers
  import opened HttpText
  import CacheControl
  import opened CacheEngine
  import Framing
  import CString

  /** What one connection meets outside the cache. */
  datatype Env = Env(enabled: bool, lookupTime: int, storeTime: int, allocOk: bool, upstream: Framing.Reply)

  /** What the client gets. */
  datatype Outcome =
    | Closed                      // no request, or no Host header: closed without a reply
    | Served(bytes: string)       // a fresh cache hit, sent from the cache
    | Forwarded(response: string) // relayed from the origin server
    | Unanswered                  // connecting or forwarding failed
    | Hung                        // read_from_server never returns

  /** The cache and usage counter after one connection, and what the client got. */
  datatype Step = Step(cache: Cache, counter: nat, outcome: Outcome)

  /** Where a connection stands before the store: finished, or holding a response to store or drop. */
  datatype Stage = Done(step: Step) | Pending(cache: Cache, request: string, response: string, stale: Option<nat>)

  /** The lookup: only with caching on and a request shorter than REQUEST_SIZE. */
  function Lookup(c: Cache, request: string, enabled: bool): (r: Option<nat>)
    ensures r.Some? ==> r == SearchCacheHit(c, request) && enabled && |request| < RequestSize
    ensures r.None? && enabled && |request| < RequestSize ==> SearchCacheHit(c, request).None?
  {
    if enabled && |request| < RequestSize then SearchCacheHit(c, request) else None
  }

  /** With caching on, no entry for the request and a full cache, the LRU entry is evicted. */
  function MakeRoom(c: Cache, stale: Option<nat>, w: Env): (r: Cache)
    ensures |r.entries| == |c.entries|
    ensures !w.enabled || stale.Some? || c.validEntries != CacheSize ==> r == c
  {
    if w.enabled && stale.None? && c.validEntries == CacheSize then EvictLru(c, w.allocOk).cache else c
  }

  /** The stale entry, if any, goes before anything is stored, whether or not the new response is cacheable. */
  function DropStale(c: Cache, stale: Option<nat>): (r: Cache)
    requires stale.Some? ==> stale.value < |c.entries|
    ensures |r.entries| == |c.entries|
    ensures stale.None? ==> r == c
  {
    if stale.Some? then EvictCacheEntry(c, stale.value) else c
  }

  /**
   * The store condition: caching on, no deny-listed directive, and sizes
   * within REQUEST_SIZE (inclusive, unlike add_cache_entry's own check) and
   * RESPONSE_SIZE.
   */
  predicate Cacheable(w: Env, request: string, response: string) {
    w.enabled && !CacheControl.CheckNoCache(response)
    && |request| <= RequestSize && |response| <= ResponseSize
  }

  /** Everything up to the store: reading, host check, lookup, serving a fresh hit, LRU eviction and forwarding. */
  function Route(c: Cache, counter: nat, request: Option<string>, w: Env): (r: Stage)
    ensures r.Done? ==> r.step.counter >= counter
    ensures (r.Done? && r.step.outcome.Served?) <==>
              request.Some? && ExtractHost(request.value).Some? && w.enabled && |request.value| < RequestSize
              && SearchCacheHit(c, request.value).Some?
              && !IsTimedOut(c, SearchCacheHit(c, request.value).value, w.lookupTime)
    ensures r.Done? && r.step.outcome.Served? ==>
              request.Some? && SearchCacheHit(c, request.value).Some?
              && var i := SearchCacheHit(c, request.value).value;
                 r.step.cache == ServeFromCache(c, i, counter).cache && r.step.outcome.bytes == c.entries[i].response
    ensures r.Pending? ==>
              request == Some(r.request) && w.upstream == Framing.Relayed(r.response) && r.stale == Lookup(c, r.request, w.enabled)
              && r.cache == MakeRoom(c, r.stale, w)
    ensures r.Pending? <==>
              request.Some? && ExtractHost(request.value).Some? && w.upstream.Relayed?
              && !(w.enabled && |request.value| < RequestSize && SearchCacheHit(c, request.value).Some?
                   && !IsTimedOut(c, SearchCacheHit(c, request.value).value, w.lookupTime))
    ensures r.Done? && r.step.outcome.Hung? ==> w.upstream.NeverReturns?
  {
    // The URI is only logged, so it takes no part here.
    match request
    case None => Done(Step(c, counter, Closed))
    case Some(req) =>
      if ExtractHost(req).None? then Done(Step(c, counter, Closed))
      else
        var hit := Lookup(c, req, w.enabled);
        if hit.Some? && !IsTimedOut(c, hit.value, w.lookupTime) then
          var s := ServeFromCache(c, hit.value, counter);
          Done(Step(s.cache, s.counter, Served(s.bytes)))
        else
          var c1 := MakeRoom(c, hit, w);
          match w.upstream
          case NoReply => Done(Step(c1, counter, Unanswered))
          case NeverReturns => Done(Step(c1, counter, Hung))
          case Relayed(resp) => Pending(c1, req, resp, hit)
  }

  /** The store, with add_cache_entry as its comment describes it. */
  function Store(c: Cache, counter: nat, request: string, response: string, stale: Option<nat>, w: Env): (r: Step)
    requires stale.Some? ==> stale.value < |c.entries|
    ensures r.outcome == Forwarded(response) && r.counter >= counter
    ensures !Cacheable(w, request, response) ==> r.cache == DropStale(c, stale) && r.counter == counter
  {
    var c2 := DropStale(c, stale);
    if Cacheable(w, request, response) then
      var ins := AddCacheEntry(c2, counter, request, response, w.storeTime);
      Step(ins.cache, ins.counter, Forwarded(response))
    else Step(c2, counter, Forwarded(response))
  }

  /**
   * One connection. The client is served from the cache exactly when caching
   * is on, the request has a Host header, is shorter than REQUEST_SIZE and
   * has a fresh entry; a forwarded reply is what the server sent; with
   * caching off the cache and counter are left alone.
   */
  function HandleConnection(c: Cache, counter: nat, request: Option<string>, w: Env): (r: Step)
    ensures r.counter >= counter
    ensures r.outcome.Served? <==>
              request.Some? && ExtractHost(request.value).Some? && w.enabled && |request.value| < RequestSize
              && SearchCacheHit(c, request.value).Some?
              && !IsTimedOut(c, SearchCacheHit(c, request.value).value, w.lookupTime)
    ensures r.outcome.Served? ==> r.outcome.bytes == c.entries[SearchCacheHit(c, request.value).value].response
    ensures r.outcome.Forwarded? ==> w.upstream == Framing.Relayed(r.outcome.response)
    ensures r.outcome.Forwarded? <==>
              request.Some? && ExtractHost(request.value).Some? && w.upstream.Relayed?
              && !(w.enabled && |request.value| < RequestSize && SearchCacheHit(c, request.value).Some?
                   && !IsTimedOut(c, SearchCacheHit(c, request.value).value, w.lookupTime))
    ensures r.outcome.Hung? ==> w.upstream.NeverReturns?
    ensures r.outcome.Closed? <==> request.None? || ExtractHost(request.value).None?
    ensures r.outcome.Closed? ==> r.cache == c && r.counter == counter
    ensures !w.enabled ==> r.cache == c && r.counter == counter
  {
    match Route(c, counter, request, w)
    case Done(s) => s
    case Pending(c1, req, resp, stale) => Store(c1, counter, req, resp, stale, w)
  }

  // ---------------------------------------------------------------------
  // The code as written

  /**
   * A connection as the code is written: a URI scan that runs past the end
   * of the request, or a store that indexes entries[-1], leaves the run
   * undefined.
   */
  datatype WrittenStep = Defined(step: Step) | Undefined

  /** The store with add_cache_entry as written. */
  function StoreAsWritten(c: Cache, counter: nat, request: string, response: string, stale: Option<nat>, w: Env): (r: WrittenStep)
    requires stale.Some? ==> stale.value < |c.entries|
    ensures r.Undefined? ==> Cacheable(w, request, response)
    ensures !Cacheable(w, request, response) ==> r == Defined(Store(c, counter, request, response, stale, w))
  {
    var c2 := DropStale(c, stale);
    if Cacheable(w, request, response) then
      match AddCacheEntryAsWritten(c2, counter, request, response, w.storeTime)
      case OutOfBounds => Undefined
      case InBounds(ins) => Defined(Step(ins.cache, ins.counter, Forwarded(response)))
    else Defined(Step(c2, counter, Forwarded(response)))
  }

  /**
   * The key evict_lru_entry hands back when a connection makes room in a
   * full cache: with caching on, a request with a Host header and no entry
   * for it, and the key copy allocated, it is the LRU slot's key.
   */
  function Evicted(c: Cache, request: Option<string>, w: Env): (r: Option<string>)
    ensures r.Some? ==> request.Some? && ExtractHost(request.value).Some? && w.enabled && w.allocOk
                        && Lookup(c, request.value, w.enabled).None? && c.validEntries == CacheSize
                        && LruIndex(c.entries).Some? && r.value == c.entries[LruIndex(c.entries).value].request
    ensures (request.Some? && ExtractHost(request.value).Some? && w.enabled && w.allocOk
             && Lookup(c, request.value, w.enabled).None? && c.validEntries == CacheSize
             && LruIndex(c.entries).Some?) ==> r.Some?
  {
    if request.Some? && ExtractHost(request.value).Some? && w.enabled
       && Lookup(c, request.value, w.enabled).None? && c.validEntries == CacheSize
    then EvictLru(c, w.allocOk).evicted
    else None
  }

  /** An evicted key the URI scan of the code as written runs past. */
  predicate EvictsUndelimited(c: Cache, request: Option<string>, w: Env) {
    Evicted(c, request, w).Some? && !UriDelimited(Evicted(c, request, w).value)
  }

  /**
   * One connection as the code is written: extract_request_uri runs on every
   * request that was read, with caching on or off, before the Host check,
   * and again on the key an LRU eviction hands back, for logging.
   */
  function HandleConnectionAsWritten(c: Cache, counter: nat, request: Option<string>, w: Env): (r: WrittenStep)
    ensures request.Some? && !UriDelimited(request.value) ==> r.Undefined?
    ensures EvictsUndelimited(c, request, w) ==> r.Undefined?
    ensures r.Undefined? ==> (request.Some? && !UriDelimited(request.value)) || EvictsUndelimited(c, request, w)
                             || (w.enabled && w.upstream.Relayed?)
  {
    if request.Some? && !UriDelimited(request.value) then Undefined
    else if EvictsUndelimited(c, request, w) then Undefined
    else
      match Route(c, counter, request, w)
      case Done(s) => Defined(s)
      case Pending(c1, req, resp, stale) => StoreAsWritten(c1, counter, req, resp, stale, w)
  }

  /** A request without a space or tab makes the code as written read past its end, whatever the cache holds. */
  lemma BlanklessRequestUndefined(c: Cache, counter: nat, request: string, w: Env)
    requires forall k :: 0 <= k < |request| ==> request[k] !in CString.Blanks
    ensures HandleConnectionAsWritten(c, counter, Some(request), w) == Undefined
  {
    var a := CString.FirstIn(request, 0, CString.Blanks);
    assert a == |request|;
  }

  /**
   * On a full cache with the key copy allocated, a new request whose LRU
   * slot holds a key without a blank after its method and URI makes the
   * code as written read past the end of that key.
   */
  lemma UndelimitedEvictionUndefined(c: Cache, counter: nat, request: string, w: Env)
    requires Inv(c, counter) && c.validEntries == CacheSize
    requires UriDelimited(request) && ExtractHost(request).Some?
    requires w.enabled && w.allocOk && Lookup(c, request, w.enabled).None?
    requires LruIndex(c.entries).Some? && !UriDelimited(c.entries[LruIndex(c.entries).value].request)
    ensures HandleConnectionAsWritten(c, counter, Some(request), w) == Undefined
  {
  }

  /** Every key the cache holds has a blank after its method and another after its URI. */
  predicate KeysDelimited(c: Cache) {
    forall j :: 0 <= j < |c.entries| && c.entries[j].valid ==> UriDelimited(c.entries[j].request)
  }

  /** The LRU slot is a valid one, so with only delimited keys held the evicted key is delimited too. */
  lemma DelimitedKeysEvicted(c: Cache, request: Option<string>, w: Env)
    requires KeysDelimited(c)
    ensures !EvictsUndelimited(c, request, w)
  {
    if Evicted(c, request, w).Some? {
      assert c.entries[LruIndex(c.entries).value].valid;
    }
  }

  // ---------------------------------------------------------------------
  // Properties of a connection

  /** Under the invariant a key of REQUEST_SIZE characters or more is never held. */
  lemma LongKeyMisses(c: Cache, counter: nat, request: string)
    requires Inv(c, counter) && |request| >= RequestSize
    ensures SearchCacheHit(c, request).None?
  {
    forall j | 0 <= j < |c.entries| ensures !IsHit(c.entries[j], request) {
      if c.entries[j].valid {
        assert EntryOk(c.entries[j], counter);
      }
    }
  }

  /** LRU eviction only clears a slot, so a key it did not hold stays absent. */
  lemma MissSurvivesEviction(c: Cache, allocOk: bool, request: string)
    requires SearchCacheHit(c, request).None?
    ensures SearchCacheHit(EvictLru(c, allocOk).cache, request).None?
  {
    var r := EvictLru(c, allocOk);
    if r.evicted.Some? {
      var k := LruIndex(c.entries).value;
      forall j | 0 <= j < |r.cache.entries| ensures !IsHit(r.cache.entries[j], request) {
        if j != k {
          assert r.cache.entries[j] == c.entries[j];
        }
      }
    }
  }

  /**
   * Just before the store the invariant still holds and, with caching on,
   * the request has no entry; when the LRU key copy can be allocated, a
   * slot is also free.
   */
  lemma BeforeStore(c: Cache, counter: nat, request: string, w: Env)
    requires Inv(c, counter)
    requires var hit := Lookup(c, request, w.enabled); hit.None? || IsTimedOut(c, hit.value, w.lookupTime)
    ensures var stale := Lookup(c, request, w.enabled);
            var c2 := DropStale(MakeRoom(c, stale, w), stale);
            Inv(c2, counter)
            && (w.enabled ==> SearchCacheHit(c2, request).None?)
            && (w.enabled && w.allocOk ==> c2.validEntries < CacheSize)
  {
    var stale := Lookup(c, request, w.enabled);
    var c1 := MakeRoom(c, stale, w);
    var c2 := DropStale(c1, stale);
    EvictLruKeepsInv(c, counter, w.allocOk);
    CountInRange(c, counter);
    assert Inv(c1, counter);
    if stale.Some? {
      EvictCacheEntryKeepsInv(c, stale.value, counter);
    } else if w.enabled {
      if |request| >= RequestSize {
        LongKeyMisses(c, counter, request);
      }
      assert SearchCacheHit(c, request).None?;
      MissSurvivesEviction(c, w.allocOk, request);
      if w.allocOk && c.validEntries == CacheSize {
        CountValidFull(c.entries);
        assert LruIndex(c.entries).Some?;
      }
    }
  }

  /** A connection that ends before the store keeps the invariant. */
  lemma RouteKeepsInv(c: Cache, counter: nat, request: Option<string>, w: Env)
    requires Inv(c, counter)
    ensures var r := Route(c, counter, request, w);
            r.Done? ==> Inv(r.step.cache, r.step.counter)
  {
    var r := Route(c, counter, request, w);
    if r.Done? && r.step.outcome.Served? {
      TouchKeepsInv(c, SearchCacheHit(c, request.value).value, counter);
    } else if r.Done? && (r.step.outcome.Unanswered? || r.step.outcome.Hung?) {
      BeforeStore(c, counter, request.value, w);
    }
  }

  /** The store keeps the invariant when the stale entry's removal leaves it holding and the key absent. */
  lemma StoreKeepsInv(c1: Cache, counter: nat, request: string, response: string, stale: Option<nat>, w: Env)
    requires stale.Some? ==> stale.value < |c1.entries|
    requires Inv(DropStale(c1, stale), counter)
    requires w.enabled ==> SearchCacheHit(DropStale(c1, stale), request).None?
    ensures var r := Store(c1, counter, request, response, stale, w); Inv(r.cache, r.counter)
  {
    if Cacheable(w, request, response) {
      AddKeepsInv(DropStale(c1, stale), counter, request, response, w.storeTime);
    }
  }

  /** Every connection keeps the cache invariant under the counter it leaves. */
  lemma HandleKeepsInv(c: Cache, counter: nat, request: Option<string>, w: Env)
    requires Inv(c, counter)
    ensures var r := HandleConnection(c, counter, request, w); Inv(r.cache, r.counter)
  {
    match Route(c, counter, request, w)
    case Done(s) =>
      RouteKeepsInv(c, counter, request, w);
    case Pending(c1, req, resp, stale) =>
      BeforeStore(c, counter, req, w);
      StoreKeepsInv(c1, counter, req, resp, stale, w);
  }

  /** Whenever the code as written is defined, it does what the model does. */
  lemma AsWrittenDefinedAgrees(c: Cache, counter: nat, request: Option<string>, w: Env)
    ensures var r := HandleConnectionAsWritten(c, counter, request, w);
            r.Defined? ==> r.step == HandleConnection(c, counter, request, w)
  {
    match Route(c, counter, request, w)
    case Done(s) =>
    case Pending(c1, req, resp, stale) =>
      AddAsWrittenInBounds(DropStale(c1, stale), counter, req, resp, w.storeTime);
  }

  /**
   * With the LRU key copy allocated and every held key delimited, the code
   * as written never reaches entries[-1] nor scans past an evicted key.
   */
  lemma AsWrittenAgrees(c: Cache, counter: nat, request: Option<string>, w: Env)
    requires Inv(c, counter) && KeysDelimited(c) && (request.Some? ==> UriDelimited(request.value)) && w.allocOk
    ensures HandleConnectionAsWritten(c, counter, request, w) == Defined(HandleConnection(c, counter, request, w))
  {
    DelimitedKeysEvicted(c, request, w);
    match Route(c, counter, request, w)
    case Done(s) =>
    case Pending(c1, req, resp, stale) =>
      if Cacheable(w, req, resp) && !Oversized(req, resp) {
        BeforeStore(c, counter, req, w);
        var c2 := DropStale(c1, stale);
        CountInRange(c2, counter);
        AddAsWrittenAgrees(c2, counter, req, resp, w.storeTime);
      }
  }

  /**
   * When the LRU key copy cannot be allocated, a full cache, a request
   * missing from it and a cacheable response make the code as written store
   * into entries[-1].
   */
  lemma AsWrittenUndefined(c: Cache, counter: nat, request: string, w: Env)
    requires Inv(c, counter) && c.validEntries == CacheSize
    requires UriDelimited(request) && ExtractHost(request).Some?
    requires |request| < RequestSize && SearchCacheHit(c, request).None?
    requires w.enabled && !w.allocOk && w.upstream.Relayed?
    requires !CacheControl.CheckNoCache(w.upstream.response) && |w.upstream.response| <= ResponseSize
    ensures HandleConnectionAsWritten(c, counter, Some(request), w) == Undefined
  {
    AddAsWrittenOutOfBounds(c, counter, request, w.upstream.response, w.storeTime);
  }

  /** A fresh hit is served from the cache and only its tick moves. */
  lemma FreshHitServed(c: Cache, counter: nat, request: string, w: Env)
    requires Inv(c, counter) && ExtractHost(request).Some?
    requires w.enabled && SearchCacheHit(c, request).Some?
    requires !IsTimedOut(c, SearchCacheHit(c, request).value, w.lookupTime)
    ensures var i := SearchCacheHit(c, request).value;
            var r := HandleConnection(c, counter, Some(request), w);
            r.outcome == Served(c.entries[i].response) && r.counter == counter + 1
            && r.cache.validEntries == c.validEntries
            && r.cache.entries[i] == c.entries[i].(lastUsed := counter + 1)
            && forall j :: 0 <= j < |c.entries| && j != i ==> r.cache.entries[j] == c.entries[j]
  {
    var i := SearchCacheHit(c, request).value;
    assert EntryOk(c.entries[i], counter);
  }

  /** A stale hit is routed to the server with the entry kept, and nothing is evicted for it. */
  lemma StaleHitRoute(c: Cache, counter: nat, request: string, w: Env)
    requires Inv(c, counter) && ExtractHost(request).Some?
    requires w.enabled && SearchCacheHit(c, request).Some?
    requires IsTimedOut(c, SearchCacheHit(c, request).value, w.lookupTime)
    ensures Route(c, counter, Some(request), w) ==
              match w.upstream
              case NoReply => Done(Step(c, counter, Unanswered))
              case NeverReturns => Done(Step(c, counter, Hung))
              case Relayed(resp) => Pending(c, request, resp, SearchCacheHit(c, request))
  {
    var i := SearchCacheHit(c, request).value;
    assert EntryOk(c.entries[i], counter);
    assert Lookup(c, request, w.enabled) == Some(i);
  }

  /**
   * A stale hit is never served: the request goes to the server, and one
   * without a reply leaves the stale entry where it was.
   */
  lemma StaleHitForwarded(c: Cache, counter: nat, request: string, w: Env)
    requires Inv(c, counter) && ExtractHost(request).Some?
    requires w.enabled && SearchCacheHit(c, request).Some?
    requires IsTimedOut(c, SearchCacheHit(c, request).value, w.lookupTime)
    ensures var r := HandleConnection(c, counter, Some(request), w);
            (w.upstream.Relayed? ==> r.outcome == Forwarded(w.upstream.response))
            && (w.upstream.NoReply? ==> r == Step(c, counter, Unanswered))
            && (w.upstream.NeverReturns? ==> r == Step(c, counter, Hung))
  {
    StaleHitRoute(c, counter, request, w);
  }

  /** A stale entry whose refreshed response may not be cached is dropped. */
  lemma UncacheableRefreshDropsStale(c: Cache, counter: nat, request: string, w: Env)
    requires Inv(c, counter) && ExtractHost(request).Some?
    requires w.enabled && SearchCacheHit(c, request).Some?
    requires IsTimedOut(c, SearchCacheHit(c, request).value, w.lookupTime)
    requires w.upstream.Relayed? && CacheControl.CheckNoCache(w.upstream.response)
    ensures var r := HandleConnection(c, counter, Some(request), w);
            SearchCacheHit(r.cache, request).None? && r.cache.validEntries == c.validEntries - 1
  {
    var i := SearchCacheHit(c, request).value;
    StaleHitRoute(c, counter, request, w);
    assert HandleConnection(c, counter, Some(request), w).cache == EvictCacheEntry(c, i);
    EvictCacheEntryKeepsInv(c, i, counter);
  }

  /**
   * When connecting or forwarding fails, a request that is not served from
   * the cache goes unanswered, and when the response never ends the proxy
   * hangs; either way the LRU eviction already done stays, and a stale entry
   * stays too.
   */
  lemma FailedForwardKeepsEviction(c: Cache, counter: nat, request: string, w: Env)
    requires ExtractHost(request).Some? && !w.upstream.Relayed?
    ensures var r := HandleConnection(c, counter, Some(request), w);
            r.outcome.Served?
            || r == Step(MakeRoom(c, Lookup(c, request, w.enabled), w), counter, if w.upstream.NeverReturns? then Hung else Unanswered)
  {
  }

  /** A request of REQUEST_SIZE characters or more is never in the cache after a connection, whatever it was. */
  lemma LongRequestNeverCached(c: Cache, counter: nat, request: Option<string>, w: Env, key: string)
    requires Inv(c, counter) && |key| >= RequestSize
    ensures var r := HandleConnection(c, counter, request, w);
            SearchCacheHit(r.cache, key).None?
  {
    var r := HandleConnection(c, counter, request, w);
    HandleKeepsInv(c, counter, request, w);
    LongKeyMisses(r.cache, r.counter, key);
  }

  /**
   * A request of REQUEST_SIZE characters or more is never looked up or
   * stored, yet on a full cache it still costs the LRU entry.
   */
  lemma LongRequestEvicts(c: Cache, counter: nat, request: string, w: Env)
    requires Inv(c, counter) && ExtractHost(request).Some?
    requires |request| >= RequestSize && w.enabled && w.allocOk && c.validEntries == CacheSize
    ensures var r := HandleConnection(c, counter, Some(request), w);
            r.outcome.Served? == false && SearchCacheHit(r.cache, request).None?
            && r.cache.validEntries == CacheSize - 1 && r.counter == counter
  {
    var c1 := EvictLru(c, w.allocOk).cache;
    assert Lookup(c, request, w.enabled) == None;
    assert MakeRoom(c, None, w) == c1;
    CountValidFull(c.entries);
    assert LruIndex(c.entries).Some?;
    EvictLruKeepsInv(c, counter, w.allocOk);
    LongKeyMisses(c1, counter, request);
    if w.upstream.Relayed? {
      assert Oversized(request, w.upstream.response);
    }
    var r := HandleConnection(c, counter, Some(request), w);
    assert r.cache == c1 && r.counter == counter;
  }

  /** A cacheable response relayed for a short request is stored under the request with its max-age and time. */
  lemma ForwardedStores(c: Cache, counter: nat, request: string, w: Env)
    requires Inv(c, counter) && |request| < RequestSize
    requires w.allocOk && w.upstream.Relayed? && Cacheable(w, request, w.upstream.response)
    requires ExtractHost(request).Some?
    requires SearchCacheHit(c, request).Some? ==> IsTimedOut(c, SearchCacheHit(c, request).value, w.lookupTime)
    ensures var r := HandleConnection(c, counter, Some(request), w);
            var k := SearchCacheHit(r.cache, request);
            k.Some? && r.cache.entries[k.value].response == w.upstream.response
            && r.cache.entries[k.value].cachedTime == w.storeTime
            && r.cache.entries[k.value].maxAge == CacheControl.GetMaxAge(w.upstream.response)
  {
    var resp := w.upstream.response;
    var stale := Lookup(c, request, w.enabled);
    var c1 := MakeRoom(c, stale, w);
    var c2 := DropStale(c1, stale);
    assert Route(c, counter, Some(request), w) == Pending(c1, request, resp, stale);
    BeforeStore(c, counter, request, w);
    AddSucceeds(c2, counter, request, resp, w.storeTime);
    AddThenSearch(c2, counter, request, resp, w.storeTime);
    assert HandleConnection(c, counter, Some(request), w).cache == AddCacheEntry(c2, counter, request, resp, w.storeTime).cache;
  }

  /**
   * The round trip: a cacheable response relayed for a short request is
   * served from the cache to the next identical request while it is fresh.
   */
  lemma ForwardedThenServed(c: Cache, counter: nat, request: string, w: Env, w2: Env)
    requires Inv(c, counter) && |request| < RequestSize
    requires w.allocOk && w.upstream.Relayed? && Cacheable(w, request, w.upstream.response)
    requires ExtractHost(request).Some?
    requires SearchCacheHit(c, request).Some? ==> IsTimedOut(c, SearchCacheHit(c, request).value, w.lookupTime)
    requires var m := CacheControl.GetMaxAge(w.upstream.response); m == -1 || w2.lookupTime - w.storeTime < m
    requires w2.enabled
    ensures var r := HandleConnection(c, counter, Some(request), w);
            HandleConnection(r.cache, r.counter, Some(request), w2).outcome == Served(w.upstream.response)
  {
    var r := HandleConnection(c, counter, Some(request), w);
    ForwardedStores(c, counter, request, w);
    var k := SearchCacheHit(r.cache, request).value;
    assert !IsTimedOut(r.cache, k, w2.lookupTime);
  }

  // ---------------------------------------------------------------------
  // The accept loop

  /** One accepted client: the request read from it and what it meets outside the cache. */
  datatype Connection = Connection(request: Option<string>, env: Env)

  /** The cache and usage counter after a run of connections, and what each client got. */
  datatype Trace = Trace(cache: Cache, counter: nat, outcomes: seq<Outcome>)

  /**
   * The accept loop of start_proxy over a sequence of connections, handled
   * one after another; a connection whose response never ends is the last
   * one the proxy handles.
   */
  function Run(c: Cache, counter: nat, conns: seq<Connection>): (t: Trace)
    decreases |conns|
    ensures |t.outcomes| <= |conns| && t.counter >= counter
    ensures |t.outcomes| < |conns| ==> t.outcomes != [] && t.outcomes[|t.outcomes| - 1].Hung?
  {
    if conns == [] then Trace(c, counter, [])
    else
      var s := HandleConnection(c, counter, conns[0].request, conns[0].env);
      if s.outcome.Hung? then Trace(s.cache, s.counter, [s.outcome])
      else
        var t := Run(s.cache, s.counter, conns[1..]);
        Trace(t.cache, t.counter, [s.outcome] + t.outcomes)
  }

  /**
   * The run stops at the first hang and nowhere else, and a connection hangs
   * only when its server's response never ends.
   */
  lemma {:induction false} RunHangsOnlyAtEnd(c: Cache, counter: nat, conns: seq<Connection>)
    ensures var t := Run(c, counter, conns);
            && (forall k :: 0 <= k < |t.outcomes| - 1 ==> !t.outcomes[k].Hung?)
            && (forall k :: 0 <= k < |t.outcomes| && t.outcomes[k].Hung? ==> conns[k].env.upstream.NeverReturns?)
    decreases |conns|
  {
    if conns != [] {
      var s := HandleConnection(c, counter, conns[0].request, conns[0].env);
      if !s.outcome.Hung? {
        RunHangsOnlyAtEnd(s.cache, s.counter, conns[1..]);
        var t := Run(s.cache, s.counter, conns[1..]);
        assert Run(c, counter, conns).outcomes == [s.outcome] + t.outcomes;
        forall k | 1 <= k < |t.outcomes| + 1 ensures conns[k] == conns[1..][k - 1] {
        }
      }
    }
  }

  /** With caching off on every connection, a run leaves the cache and the counter alone. */
  lemma {:induction false} RunWithCachingOff(c: Cache, counter: nat, conns: seq<Connection>)
    requires forall k :: 0 <= k < |conns| ==> !conns[k].env.enabled
    ensures var t := Run(c, counter, conns); t.cache == c && t.counter == counter
    decreases |conns|
  {
    if conns != [] {
      var s := HandleConnection(c, counter, conns[0].request, conns[0].env);
      if !s.outcome.Hung? {
        RunWithCachingOff(s.cache, s.counter, conns[1..]);
      }
    }
  }

  /** Every run of connections keeps the cache invariant. */
  lemma {:induction false} RunKeepsInv(c: Cache, counter: nat, conns: seq<Connection>)
    requires Inv(c, counter)
    ensures var t := Run(c, counter, conns); Inv(t.cache, t.counter)
    decreases |conns|
  {
    if conns != [] {
      var s := HandleConnection(c, counter, conns[0].request, conns[0].env);
      HandleKeepsInv(c, counter, conns[0].request, conns[0].env);
      if !s.outcome.Hung? {
        RunKeepsInv(s.cache, s.counter, conns[1..]);
      }
    }
  }

  /** Making room only clears a slot, so held keys stay delimited. */
  lemma MakeRoomKeepsKeysDelimited(c: Cache, stale: Option<nat>, w: Env)
    requires KeysDelimited(c)
    ensures KeysDelimited(MakeRoom(c, stale, w))
  {
    var c1 := MakeRoom(c, stale, w);
    if c1 != c {
      var k := LruIndex(c.entries).value;
      forall j | 0 <= j < |c1.entries| && c1.entries[j].valid ensures UriDelimited(c1.entries[j].request) {
        assert j != k && c1.entries[j] == c.entries[j];
      }
    }
  }

  /** The store drops a slot and may fill one with the request, so a delimited request keeps keys delimited. */
  lemma StoreKeepsKeysDelimited(c1: Cache, counter: nat, request: string, response: string, stale: Option<nat>, w: Env)
    requires stale.Some? ==> stale.value < |c1.entries|
    requires KeysDelimited(c1) && UriDelimited(request)
    ensures KeysDelimited(Store(c1, counter, request, response, stale, w).cache)
  {
    var c2 := DropStale(c1, stale);
    assert KeysDelimited(c2) by {
      forall j | 0 <= j < |c2.entries| && c2.entries[j].valid ensures UriDelimited(c2.entries[j].request) {
        assert c2.entries[j] == c1.entries[j];
      }
    }
    if Cacheable(w, request, response) {
      var ins := AddCacheEntry(c2, counter, request, response, w.storeTime);
      forall j | 0 <= j < |ins.cache.entries| && ins.cache.entries[j].valid ensures UriDelimited(ins.cache.entries[j].request) {
        if ins.index != Some(j) {
          assert ins.cache.entries[j] == c2.entries[j];
        }
      }
    }
  }

  /** Serving a hit only moves a tick, so held keys stay delimited. */
  lemma ServeKeepsKeysDelimited(c: Cache, i: nat, counter: nat)
    requires i < |c.entries| && KeysDelimited(c)
    ensures KeysDelimited(ServeFromCache(c, i, counter).cache)
  {
    var s := ServeFromCache(c, i, counter);
    forall j | 0 <= j < |s.cache.entries| && s.cache.entries[j].valid ensures UriDelimited(s.cache.entries[j].request) {
      assert s.cache.entries[j].request == c.entries[j].request && c.entries[j].valid;
    }
  }

  /** A connection whose request is delimited leaves only delimited keys behind. */
  lemma HandleKeepsKeysDelimited(c: Cache, counter: nat, request: Option<string>, w: Env)
    requires KeysDelimited(c) && (request.Some? ==> UriDelimited(request.value))
    ensures KeysDelimited(HandleConnection(c, counter, request, w).cache)
  {
    match Route(c, counter, request, w)
    case Done(s) =>
      if s.outcome.Served? {
        ServeKeepsKeysDelimited(c, SearchCacheHit(c, request.value).value, counter);
      } else if request.Some? && ExtractHost(request.value).Some? {
        MakeRoomKeepsKeysDelimited(c, Lookup(c, request.value, w.enabled), w);
      }
    case Pending(c1, req, resp, stale) =>
      MakeRoomKeepsKeysDelimited(c, stale, w);
      StoreKeepsKeysDelimited(c1, counter, req, resp, stale, w);
  }

  /** The accept loop as the code is written: an undefined connection leaves the whole run undefined. */
  datatype WrittenTrace = DefinedRun(trace: Trace) | UndefinedRun

  function RunAsWritten(c: Cache, counter: nat, conns: seq<Connection>): (t: WrittenTrace)
    decreases |conns|
    ensures conns != [] && HandleConnectionAsWritten(c, counter, conns[0].request, conns[0].env).Undefined? ==> t.UndefinedRun?
  {
    if conns == [] then DefinedRun(Trace(c, counter, []))
    else
      match HandleConnectionAsWritten(c, counter, conns[0].request, conns[0].env)
      case Undefined => UndefinedRun
      case Defined(s) =>
        if s.outcome.Hung? then DefinedRun(Trace(s.cache, s.counter, [s.outcome]))
        else
          match RunAsWritten(s.cache, s.counter, conns[1..])
          case UndefinedRun => UndefinedRun
          case DefinedRun(t) => DefinedRun(Trace(t.cache, t.counter, [s.outcome] + t.outcomes))
  }

  /** A run of the code as written that is defined is the modelled run. */
  lemma {:induction false} RunAsWrittenDefinedAgrees(c: Cache, counter: nat, conns: seq<Connection>)
    ensures var t := RunAsWritten(c, counter, conns); t.DefinedRun? ==> t.trace == Run(c, counter, conns)
    decreases |conns|
  {
    if conns != [] {
      AsWrittenDefinedAgrees(c, counter, conns[0].request, conns[0].env);
      var s := HandleConnection(c, counter, conns[0].request, conns[0].env);
      if !s.outcome.Hung? {
        RunAsWrittenDefinedAgrees(s.cache, s.counter, conns[1..]);
      }
    }
  }

  /** Connections whose requests are delimited and whose key copies are allocated. */
  predicate WellFormedConns(conns: seq<Connection>) {
    forall k :: 0 <= k < |conns| ==>
      conns[k].env.allocOk && (conns[k].request.Some? ==> UriDelimited(conns[k].request.value))
  }

  lemma WellFormedTail(conns: seq<Connection>)
    requires conns != [] && WellFormedConns(conns)
    ensures WellFormedConns(conns[1..])
  {
    forall k | 0 <= k < |conns[1..]| ensures conns[1..][k] == conns[k + 1] {
    }
  }

  /**
   * From a cache holding only delimited keys, a run of the code as written
   * over such connections is defined, is the modelled run, and still holds
   * only delimited keys.
   */
  lemma {:induction false} RunAsWrittenAgrees(c: Cache, counter: nat, conns: seq<Connection>)
    requires Inv(c, counter) && KeysDelimited(c) && WellFormedConns(conns)
    ensures RunAsWritten(c, counter, conns) == DefinedRun(Run(c, counter, conns))
    ensures KeysDelimited(Run(c, counter, conns).cache)
    decreases |conns|
  {
    if conns != [] {
      var q := conns[0];
      AsWrittenAgrees(c, counter, q.request, q.env);
      HandleKeepsInv(c, counter, q.request, q.env);
      HandleKeepsKeysDelimited(c, counter, q.request, q.env);
      var s := HandleConnection(c, counter, q.request, q.env);
      if !s.outcome.Hung? {
        WellFormedTail(conns);
        RunAsWrittenAgrees(s.cache, s.counter, conns[1..]);
      }
    }
  }

  /**
   * From the cache start_proxy initialises, the code as written runs exactly
   * as modelled over connections whose requests are delimited and whose key
   * copies are allocated: no evicted key is ever scanned past its end.
   */
  lemma StartProxyAsWrittenAgrees(conns: seq<Connection>)
    requires WellFormedConns(conns)
    ensures RunAsWritten(InitCache(), 0, conns) == DefinedRun(Run(InitCache(), 0, conns))
  {
    InitCacheInv();
    RunAsWrittenAgrees(InitCache(), 0, conns);
  }

  /** From the cache start_proxy initialises, the invariant holds after any run. */
  lemma StartProxyKeepsInv(conns: seq<Connection>)
    ensures var t := Run(InitCache(), 0, conns); Inv(t.cache, t.counter)
  {
    InitCacheInv();
    RunKeepsInv(InitCache(), 0, conns);
  }
}
