# A verified model of a caching HTTP/1.1 forward proxy

This project is a Dafny model of the decision logic of a small blocking HTTP
proxy written in C. The proxy's cache is a fixed array of ten slots. Each slot
is keyed by the full request text and carries these fields:
- an LRU tick drawn from a shared usage counter;
- the time it was stored;
- a max-age read from the response's `Cache-Control` header.

For every client connection the proxy makes these decisions:
- it reads the request up to the end of its header block;
- it extracts the `Host` value and the request URI;
- it serves a fresh cache hit directly;
- otherwise it evicts the least-recently-used entry when the cache is full;
- it forwards the request and reads the response, framed by `Content-Length`;
- it stores the response when it is cacheable, dropping a stale entry for the
  same request either way.

The model has eight modules, one file each:

- `wrappers.dfy` (`Wrappers`): the `Option` type that stands for NULL pointers
  and -1 sentinels.
- `cstring.dfy` (`CString`): the C library routines the parsers use, as pure
  functions over NUL-free strings: `strstr`, `strcasestr`, `strrchr`,
  `strtok`, `strcasecmp`/`strncasecmp`, `atoi` and blank skipping.
- `http_text.dfy` (`HttpText`): the header block, and the three functions that
  slice text out of a request: `extract_host`, `extract_request_uri` and
  `extract_last_header_line`.
- `cache_control.dfy` (`CacheControl`): `parse_cache_control`,
  `check_no_cache` with its six-keyword deny list, and `get_max_age`. This
  is a subset of the response directives of section 5.2.2 of RFC 9111.
- `cache.dfy` (`CacheEngine`): the cache operations of `src/cache.c`, and the
  cache invariant every one of them keeps. The invariant covers slot count and
  indices, `valid_entries` as the count of valid slots, well-formed entries,
  one valid slot per key, and distinct ticks.
- `framing.dfy` (`Framing`): the two socket read loops, `read_http_request`
  and `read_from_server`, with `recv` replaced by a list of call outcomes, and
  `forward_request` without its send loops. The request loop stops at the end
  of the header block (section 2.1 of RFC 9112). The response loop stops once
  `Content-Length` bytes of body are there (section 6.3 of RFC 9112).
- `pipeline.dfy` (`Pipeline`): the body of the accept loop of `start_proxy`,
  as one pure transition of the cache and the usage counter, and the loop
  itself over a sequence of connections. The same transition and loop are
  also modelled as the code is written. There, a URI scan past the end of
  the request or of an evicted key, or a store into `entries[-1]`, leaves
  the run undefined (see Findings).
- `examples.dfy` (`Examples`): the request parsers applied to a concrete
  request, `GET /x HTTP/1.1` for `example.com`, and two clients whose
  request read fails.

What a connection meets outside the cache is an input:
- the request `read_http_request` returned;
- whether caching is on;
- the clock at the lookup and at the store;
- whether `evict_lru_entry` can allocate its key copy;
- what `connect_to_host` plus `forward_request` give back: the relayed
  response, a failure, or nothing at all because `read_from_server` never
  returns. In the last case the single-threaded accept loop waits for ever,
  so that connection is the last one the proxy handles.

Two details of `add_cache_entry` shape the cache's behaviour:
- it rejects a key of REQUEST_SIZE characters or more (`src/cache.c:110`);
- it increments `valid_entries` only while the count is below CACHE_SIZE
  (`src/cache.c:129-131`).

## Model

| member | source | states |
|---|---|---|
| CString.Find | src/cache.c:211 | `strstr` gives the first exact occurrence, and None exactly when the pattern occurs nowhere |
| CString.FindCaseless | src/proxy.c:209 | `strcasestr` gives the first occurrence ignoring ASCII case, and None exactly when there is none |
| CString.FirstNotIn | src/proxy.c:218-220 | the blank-skipping loop stops at the first character outside the set, or at the end, and skips only members of the set |
| CString.FirstIn | src/proxy.c:246-248 | the scan for the next space or tab stops at the first member of the set, or at the end |
| CString.LastIndexOf | src/proxy.c:178 | `strrchr` gives the last occurrence, and None exactly when the character is absent |
| CString.Tokens | src/cache.c:225-238 | every `strtok` token is non-empty and free of delimiters |
| CString.TokensOfJoin | src/cache.c:255-270 | splitting tokens joined by a delimiter separator gives back exactly those tokens |
| CString.Trim | src/cache.c:174-186 | a trimmed directive neither starts nor ends with a space or tab |
| CString.TrimOfPadded | src/cache.c:174-186 | trimming removes exactly the blank padding around a directive |
| CString.CaseEqLowered | src/cache.c:190 | `strcasecmp` reports equality exactly when the two strings are equal once every ASCII capital is lowered |
| CString.HasPrefixCaselessLowered | src/cache.c:228 | `strncasecmp(s, p, strlen(p))` reports equality exactly when `s` is at least as long as `p` and its first `strlen(p)` characters, lowered, equal `p` lowered |
| CString.AtoiOfParts | src/cache.c:265 | `atoi` of leading white space, an optional sign, digits and a non-digit rest is the digits' value, negated after a `-` |
| CString.AtoiSkipsSpaces | src/cache.c:265 | `atoi` skips leading white space |
| CString.Atoi | src/proxy.c:112 | a non-zero value needs a digit in the string: text without one reads as 0, so a `Content-Length:` with no number announces an empty body |
| CString.AtoiOfNatToString | src/cache.c:265 | `atoi` reads back a rendered number followed by a non-digit |
| CString.AtoiOfNegative | src/cache.c:265 | `atoi` reads back a negative rendered number with its sign |
| CString.AtoiOfZeroPadded | src/cache.c:265 | `atoi` reads a number with a leading zero as the number itself |
| HttpText.HeaderBlock | src/cache.c:211-222 | the text before the first CRLFCRLF, which is a prefix followed by the terminator with no earlier terminator; None exactly when there is none |
| HttpText.HeaderBlockOfLines | src/cache.c:211-238 | for header lines joined by CRLF and followed by the terminator, the header block is that text, and splitting it on CR and LF gives the lines back |
| HttpText.LineFrom | src/proxy.c:223-229 | the text up to the next CRLF is CRLF-free and really sits at that position followed by CRLF |
| HttpText.ExtractHost | src/proxy.c:206-239 | None without a caseless `\r\nHost:`; a returned value is CRLF-free, does not start with a blank, and sits in the request followed by CRLF |
| HttpText.ExtractHostOfRequest | src/proxy.c:206-239 | with a CR-free request line and `Host:` (any case) as the first header, the result is exactly that header's value, leading blanks skipped and trailing blanks kept |
| HttpText.ExtractRequestUri | src/proxy.c:243-274 | a non-empty blank-free token that sits in the request after its first character and before its last |
| HttpText.RequestUri | src/proxy.c:243-274 | the corrected scan, which also stops at the end of the string: a blank-free token of the request followed by a blank or the end, equal to `ExtractRequestUri` wherever the code as written stays inside the string |
| HttpText.ExtractRequestUriOfLine | src/proxy.c:243-274 | for `METHOD`, blanks, `URI` and a blank, the result is exactly `URI` |
| HttpText.ExtractLastHeaderLine | src/proxy.c:172-202 | None exactly without a terminator or without `\n` in the header block; otherwise a `\n`-free suffix of the block that directly follows a `\n` |
| HttpText.ExtractLastHeaderLineOfLines | src/proxy.c:172-202 | for two or more header lines, the result is the last one |
| CacheControl.FirstCacheControlLine | src/cache.c:225-239 | the first line that starts with `Cache-Control:` in any case, and None exactly when no line does |
| CacheControl.LineValue | src/cache.c:229-234 | the value is a suffix of the line after the name; only blanks are skipped, and it does not start with one |
| CacheControl.ParseCacheControl | src/cache.c:209-243 | None without a header block; otherwise None exactly when no header line is a Cache-Control line, and otherwise the value of the first Cache-Control line, taken after its name and the blanks that follow; a value never starts with a blank |
| CacheControl.FirstLineValue | src/cache.c:225-237 | the first Cache-Control line, spelled in any case and followed by blanks, yields the text after the blanks |
| CacheControl.ParseCacheControlOfLines | src/cache.c:209-243 | for a response built from header lines, the parsed value is that of the first Cache-Control line |
| CacheControl.MatchesKeywordFrom | src/cache.c:189-196 | true exactly when the directive equals one of the remaining keywords, ignoring case |
| CacheControl.AnyNoCacheFrom | src/cache.c:170-199 | true exactly when one of the remaining tokens, trimmed, is a deny-list keyword |
| CacheControl.NoCacheValue | src/cache.c:167-204 | true exactly when some comma-separated directive of the value is on the deny list |
| CacheControl.CheckNoCache | src/cache.c:159-205 | true exactly when there is a Cache-Control value and one of its trimmed directives is one of the six keywords in any case |
| CacheControl.NoCacheDirectiveOf | src/cache.c:12-19 | a deny-list keyword in any case, padded with blanks, is recognised |
| CacheControl.NoCacheOfDirectives | src/cache.c:169-199 | a comma-joined value with a deny-list directive anywhere in it is non-cacheable |
| CacheControl.NoCacheOfDirectiveList | src/cache.c:169-199 | a comma-joined value is non-cacheable exactly when one of its directives is on the deny list |
| CacheControl.OnlyZeroMaxAgeDenied | src/cache.c:12-19 | `max-age=` followed by digits other than a lone `0` (for instance `max-age=00`) is not on the deny list |
| CacheControl.MaxAgeNotKeyword | src/cache.c:189-191 | such a directive equals none of the six keywords, ignoring case |
| CacheControl.FirstMaxAge | src/cache.c:255-271 | the first directive that starts with `max-age=` after its leading blanks, and None exactly when there is none |
| CacheControl.MaxAgeValue | src/cache.c:254-275 | -1 when no directive is a max-age directive; otherwise the seconds of the first max-age directive, read by `atoi` after `max-age=` |
| CacheControl.GetMaxAge | src/cache.c:247-276 | -1 without a Cache-Control value or without a max-age directive in it; otherwise the seconds of the first max-age directive of that value |
| CacheControl.SkipLeadingBlanks | src/cache.c:258 | the leading-blank skip stops at the first non-blank |
| CacheControl.DirectiveSecondsAfter | src/cache.c:258-265 | after blanks and `max-age=` in any case, the seconds are `atoi` of what follows |
| CacheControl.DirectiveSecondsOf | src/cache.c:258-267 | `max-age=N` in any case, padded with blanks, carries N |
| CacheControl.NegativeDirectiveSeconds | src/cache.c:258-267 | `max-age=-N` carries -N, so `max-age=-1` gives the "no max-age" value |
| CacheControl.ZeroPaddedMaxAge | src/cache.c:258-267 | a zero-padded `max-age` such as `max-age=00` is not on the deny list, and carries the unpadded number, so `max-age=00` is stored with 0 seconds |
| CacheControl.MaxAgeOfDirectives | src/cache.c:247-276 | the first max-age directive decides, and its number is read back |
| CacheControl.GetMaxAgeOfResponse | src/cache.c:209-276 | for a whole response, the max-age is the number of the first max-age directive of the first Cache-Control header |
| CacheControl.CheckNoCacheOfResponse | src/cache.c:159-243 | for a whole response, it is non-cacheable exactly when a directive of the first Cache-Control header is on the deny list |
| CacheEngine.InitCache | src/cache.c:24-40 | CACHE_SIZE slots with their own indices, all invalid, with tick 0, stored time 0, max-age -1, empty key and response, and size -1; the count is 0 |
| CacheEngine.InitCacheInv | src/cache.c:11-40 | the initialised cache satisfies the invariant under the usage counter's start value 0 |
| CacheEngine.FindInvalidEntry | src/cache.c:43-51 | the lowest invalid slot; None exactly when every slot is valid |
| CacheEngine.SearchCacheHit | src/cache.c:97-105 | the lowest valid slot whose key equals the request; None exactly when there is none |
| CacheEngine.LruIndex | src/cache.c:57-66 | a valid slot with the smallest tick, strictly smaller than that of every valid slot before it; None exactly when no slot is valid |
| CacheEngine.LruFrom | src/cache.c:61-66 | the scan keeps the least-recently-used choice among the slots seen so far |
| CacheEngine.LruIndexIs | src/cache.c:57-66 | any slot with the LRU property is the one picked, so the choice is unique |
| CacheEngine.EvictLru | src/cache.c:56-89 | NULL and no change exactly when no slot is valid or the copy cannot be allocated; otherwise the LRU slot is cleared, its key is returned, the count drops by one and no other slot changes |
| CacheEngine.UpdateLastUsed | src/cache.c:92-94 | the counter rises by one, that value is stamped on the slot, and nothing else changes |
| CacheEngine.Fill | src/cache.c:116-131 | the chosen slot holds the key, response, size, time, max-age and new tick, and no other slot changes |
| CacheEngine.AddCacheEntryAsWritten | src/cache.c:108-134 | oversized input leaves everything unchanged; otherwise the code reaches `entries[-1]` exactly when every slot is valid |
| CacheEngine.AddCacheEntry | src/cache.c:107-134 | -1 with nothing changed exactly for oversized input or a full cache; otherwise the lowest free slot holds the key, response, size, time, max-age and a fresh tick, the count rises while below CACHE_SIZE, and no other slot changes |
| CacheEngine.AddAsWrittenAgrees | src/cache.c:114-116 | with a free slot the code as written and as described agree |
| CacheEngine.AddAsWrittenInBounds | src/cache.c:108-116 | whenever `add_cache_entry` as written stays in bounds, it does what its comment describes |
| CacheEngine.AddAsWrittenOutOfBounds | src/cache.c:114-116 | on a full cache, input that passes the size check reaches `entries[-1]` |
| CacheEngine.ServeFromCache | src/cache.c:136-155 | the client gets the stored response; only that slot's tick moves, to the new counter value |
| CacheEngine.IsTimedOut | src/cache.c:279-294 | an entry is stale exactly when its max-age is not -1 and `cached_time + max_age` has been reached |
| CacheEngine.StaleIsMonotone | src/cache.c:279-294 | staleness only grows with time; max-age -1 never goes stale; any other max-age is stale from `cached_time + max_age` on |
| CacheEngine.FreshlyAddedStaleness | src/cache.c:124-126 | a stored entry never goes stale when its response's max-age is -1; otherwise it is stale exactly when `later - now >= max-age`, so max-age 0 is stale from the moment of the store |
| CacheEngine.EvictCacheEntry | src/cache.c:297-308 | the slot becomes an empty record with its index kept, the count drops by one, and no other slot changes |
| CacheEngine.CountValidUpdate | include/cache.h:27-30 | replacing one slot moves the count by the change in its valid bit |
| CacheEngine.CountValidFull | include/cache.h:27-30 | the count of valid slots is at most the slot count, and equals it exactly when every slot is valid |
| CacheEngine.CountInRange | include/cache.h:27-30 | under the invariant `valid_entries` lies in 0..CACHE_SIZE, and is below it exactly when a free slot exists |
| CacheEngine.SetSlotKeepsInv | include/cache.h:13-30 | replacing one slot with a well-formed one, sharing neither key nor tick with another valid slot, keeps the invariant |
| CacheEngine.TouchKeepsInv | src/cache.c:92-94 | touching a valid slot keeps the invariant under the new counter and makes that slot strictly most recent |
| CacheEngine.TouchedNotEvicted | src/cache.c:56-66 | the slot touched last is not the next LRU victim while another slot is valid |
| CacheEngine.EvictCacheEntryKeepsInv | src/cache.c:297-308 | removing a valid slot keeps the invariant, and its key is no longer found |
| CacheEngine.EvictLruKeepsInv | src/cache.c:56-89 | LRU eviction keeps the invariant; the evicted key is no longer found and the count drops by one |
| CacheEngine.AddKeepsInv | src/cache.c:108-134 | adding a key the cache does not hold keeps the invariant under the new counter |
| CacheEngine.InvUnderLaterCounter | src/cache.c:11 | the invariant holds under any later value of the shared counter |
| CacheEngine.AddThenSearch | src/cache.c:97-134 | a stored key is found at the slot it went to, and serving it returns the stored response |
| CacheEngine.AddSucceeds | src/cache.c:108-134 | with a free slot and sizes within bounds, the add succeeds |
| Framing.ReadHttpRequest | src/proxy.c:127-168 | on success, the result is a prefix of the stream that contains CRLFCRLF, which the bytes before the last `recv` did not; it is every byte read up to the first call after which the buffer holds CRLFCRLF, each earlier call having delivered, and the last `recv` count is that call's; it fails exactly when some `recv` returns 0 or -1 while the bytes read so far lack the terminator; it never returns exactly when every call delivers and the bytes read never contain the terminator |
| Framing.RequestBufferDoubles | src/proxy.c:139-150 | the buffer size of `read_http_request` is always INIT_BUF_SIZE times a power of two, and each iteration keeps it or doubles it |
| Framing.FailsDelivered | src/proxy.c:139-166 | when every call delivers, the read fails only on a client whose bytes lack CRLFCRLF |
| Framing.RunsOutIncomplete | src/proxy.c:139-166 | with at least as many calls as bytes sent, a read that never returns means the bytes lack CRLFCRLF; with `FailsDelivered`: when every call delivers and there are that many calls, the read succeeds exactly when the client sent the terminator |
| Framing.ClosedEarlyFails | src/proxy.c:139-165 | a client that closes before its header block ends makes the read fail, given calls enough to reach the end of what it sent |
| Framing.BodyStart | src/proxy.c:98-99 | present exactly when the buffer contains CRLFCRLF, and then just past its first occurrence |
| Framing.ContentLength | src/proxy.c:102-113 | None exactly when no caseless `Content-Length:` occurs anywhere in the buffer; otherwise `atoi` of the text after the first occurrence and its blanks |
| Framing.ContentLengthOfHeader | src/proxy.c:102-113 | a response whose first header is `Content-Length: N` announces N |
| Framing.ResponseCompleteOfLength | src/proxy.c:97-118 | such a response is complete exactly when at least N bytes follow its header block |
| Framing.ReadUntil | src/proxy.c:74-120 | the loop returns what the recursive reading `ServerReadFrom` gives from the first call, with the buffer growth and `recv` room of the code |
| Framing.ServerReadFromIs | src/proxy.c:74-120 | from any call on which the earlier calls read past and the bytes so far fail the stop test: success yields a prefix of the stream that passes the test and did not before its last `recv`, and is every byte read through the first call after which the test holds, with that call's count; failure happens exactly when some `recv` returns -1 while all earlier calls read on; it never returns exactly when no call errs and the test never passes |
| Framing.ServerOutcomesExclusive | src/proxy.c:74-120 | completing, failing on a `recv` error, and never returning exclude one another |
| Framing.ServerBufferDoubles | src/proxy.c:74-85 | the buffer size of `read_from_server` is always INIT_BUF_SIZE times a power of two, and each iteration keeps it or doubles it |
| Framing.StallsHasNoError | src/proxy.c:88-93 | a read that never returns met no `recv` error |
| Framing.StallsDelivered | src/proxy.c:80-120 | with every call delivering and at least as many calls as bytes sent, a read that never returns means the whole stream fails the stop test |
| Framing.ReadFromServer | src/proxy.c:59-124 | with the stop test "header block, a Content-Length, and at least that many bytes after the block": on success, every byte read through the first `recv` after which the test holds, with that call's count, a prefix of the stream that did not pass before it; failure exactly when a `recv` returns -1 before that; never returning exactly when no `recv` errs and the test never passes |
| Framing.NoLengthStalls | src/proxy.c:102-118 | a server that sends no `Content-Length:` header and no `recv` error keeps `read_from_server` waiting, however it closes |
| Framing.ForwardRequest | src/proxy.c:276-330 | it never returns exactly when the request was sent and `read_from_server` never returns; it relays exactly when both sends succeed and the response completes, and then relays every byte read through the completing `recv`; it gives no reply exactly when the request send fails, a `recv` errs first, or the response completes but cannot be sent on |
| Pipeline.Lookup | src/proxy.c:443-447 | a slot is looked up only with caching on and a request shorter than REQUEST_SIZE, and is then the search result |
| Pipeline.MakeRoom | src/proxy.c:470-496 | the slot count is kept, and nothing changes with caching off, with a hit, or with a cache that is not full |
| Pipeline.DropStale | src/proxy.c:531-550 | the slot count is kept, and nothing changes without a stale slot |
| Pipeline.Route | src/proxy.c:417-518 | a connection is served from the cache exactly when there is a request with a Host header, caching is on, the request is short, and its entry exists and is fresh; the served bytes are the entry's response; a connection reaches the store exactly when there is a request with a Host header, no fresh hit and a relayed response, and then with the cache made room for it and its lookup result; it hangs only when the server's response never ends |
| Pipeline.Store | src/proxy.c:520-552 | the client gets the forwarded response; a response that may not be cached leaves only the stale slot's removal |
| Pipeline.HandleConnection | src/proxy.c:417-560 | the counter never decreases; a connection is served from the cache exactly when there is a Host header, caching is on, the request is short and a fresh entry exists, and then with that entry's bytes; it forwards exactly when there is a Host header, no fresh hit and a relayed response, and the forwarded reply is the server's response; it hangs only when the server's response never ends; a connection closes without a reply exactly without a request or Host header, and then changes nothing; with caching off nothing changes |
| Pipeline.StoreAsWritten | src/proxy.c:529-541 | the code as written can only be undefined for a cacheable response, and otherwise agrees with the store |
| Pipeline.Evicted | src/proxy.c:470-477 | a key is handed back exactly when caching is on, the request has a Host header and no entry, the cache is full with a valid slot, and the key copy is allocated; it is the LRU slot's key |
| Pipeline.HandleConnectionAsWritten | src/proxy.c:417-560 | a request without a blank after its method and another after its URI makes the code as written undefined, with caching on or off, and so does an evicted key without them; otherwise it can only be undefined with caching on and a relayed response |
| Pipeline.BlanklessRequestUndefined | src/proxy.c:432-434 | a request without any space or tab makes the code as written read past its end, whatever the cache holds |
| Pipeline.UndelimitedEvictionUndefined | src/proxy.c:470-477 | on a full cache with the key copy allocated, a new request whose LRU slot holds a key without a blank after its method and URI makes the code as written undefined |
| Pipeline.DelimitedKeysEvicted | src/proxy.c:471-477 | when every held key is delimited, the evicted key's URI scan stays within it |
| Pipeline.LongKeyMisses | src/proxy.c:446 | under the invariant a key of REQUEST_SIZE characters or more is never found |
| Pipeline.MissSurvivesEviction | src/proxy.c:471-496 | LRU eviction never makes a missing key appear |
| Pipeline.BeforeStore | src/proxy.c:470-536 | before the store the invariant holds; with caching on the request is absent; with the key copy allocated a slot is free |
| Pipeline.RouteKeepsInv | src/proxy.c:417-518 | a connection that ends before the store keeps the invariant |
| Pipeline.StoreKeepsInv | src/proxy.c:520-552 | the store keeps the invariant once the stale slot is gone and the key is absent |
| Pipeline.HandleKeepsInv | src/proxy.c:417-560 | every connection keeps the cache invariant under the counter it leaves |
| Pipeline.AsWrittenAgrees | src/proxy.c:470-541 | when the key copy can be allocated and every held key and the request have a blank after their method and after their URI, the code as written neither reaches `entries[-1]` nor scans past an evicted key, and agrees with the model |
| Pipeline.AsWrittenDefinedAgrees | src/proxy.c:417-560 | whenever the code as written is defined, it does exactly what the model does |
| Pipeline.HandleKeepsKeysDelimited | src/proxy.c:417-560 | a connection whose request is delimited leaves only delimited keys in the cache |
| Pipeline.AsWrittenUndefined | src/proxy.c:471-538 | on a full cache, with the key copy failing, a new short request with a cacheable response makes the code as written store into `entries[-1]` |
| Pipeline.FreshHitServed | src/proxy.c:446-466 | a fresh hit is served with the stored bytes; the counter rises by one; only that slot's tick changes |
| Pipeline.StaleHitRoute | src/proxy.c:446-509 | a stale hit goes to the store with the cache untouched and the stale slot to be dropped, or goes unanswered or hangs with nothing changed; nothing is evicted for it |
| Pipeline.StaleHitForwarded | src/proxy.c:446-518 | a stale hit is never served: it is forwarded, and if forwarding fails or never ends the connection changes nothing |
| Pipeline.UncacheableRefreshDropsStale | src/proxy.c:543-550 | a stale entry whose new response may not be cached is removed, and the count drops by one |
| Pipeline.FailedForwardKeepsEviction | src/proxy.c:505-518 | when connecting or forwarding fails, a request not served from the cache goes unanswered, and when the response never ends the proxy hangs; either way any LRU eviction already done stays |
| Pipeline.LongRequestNeverCached | src/proxy.c:446-538 | after any connection, no key of REQUEST_SIZE characters or more is in the cache, including a request of exactly REQUEST_SIZE that passes the `<=` store guard |
| Pipeline.LongRequestEvicts | src/proxy.c:446-496 | a long request on a full cache is not served and not stored, yet the LRU entry is evicted |
| Pipeline.ForwardedStores | src/proxy.c:529-538 | a cacheable response relayed for a short request with a Host header and no fresh hit is stored under that request, with its time and max-age |
| Pipeline.ForwardedThenServed | src/proxy.c:446-538 | round trip: after that, the same request is served from the cache with that response while it is fresh |
| Pipeline.Run | src/proxy.c:401-562 | the accept loop answers at most the connections it is given and never lowers the counter; it stops short only right after a connection that hangs |
| Pipeline.RunHangsOnlyAtEnd | src/proxy.c:401-562 | only the last connection handled can hang, and connection `k` hangs only when its server's response never ends |
| Pipeline.RunWithCachingOff | src/proxy.c:401-562 | with caching off on every connection, a run leaves the cache and the counter alone |
| Pipeline.RunKeepsInv | src/proxy.c:401-562 | every run of connections keeps the cache invariant |
| Pipeline.StartProxyKeepsInv | src/proxy.c:340-562 | from the cache `start_proxy` initialises, the invariant holds after any run of connections |
| Pipeline.RunAsWritten | src/proxy.c:401-562 | the accept loop as written is undefined as soon as its first connection is |
| Pipeline.RunAsWrittenDefinedAgrees | src/proxy.c:401-562 | a run of the code as written that is defined is the modelled run |
| Pipeline.RunAsWrittenAgrees | src/proxy.c:401-562 | from a cache holding only delimited keys, over connections whose requests are delimited and whose key copies are allocated, the code as written is defined, is the modelled run, and leaves only delimited keys |
| Pipeline.StartProxyAsWrittenAgrees | src/proxy.c:340-562 | from the cache `start_proxy` initialises, over such connections, the code as written runs exactly as modelled, so the URI scan of an evicted key never runs past its end |
| Examples.ExtractHostExample | src/proxy.c:206-239 | the Host value of `GET /x HTTP/1.1` with `Host: example.com` is `example.com` |
| Examples.ExtractRequestUriExample | src/proxy.c:243-274 | the URI of the request line `GET /x HTTP/1.1` is `/x` |
| Examples.ExtractLastHeaderLineExample | src/proxy.c:172-202 | the last header line of that request is `Host: example.com` |
| Examples.RequestFailureExamples | src/proxy.c:152-165 | the read fails for the stream `\r\n\r\n` with a first `recv` error, and for the stream `GET` read by two calls, the second of which returns 0 |

## Left out

- Sockets: `connect_to_host`, the accept loop, `close`, and the `send` loops of `forward_request` and `serve_from_cache` are I/O. Their success is a boolean input of `Framing.ForwardRequest`, and the upstream response is an input of the pipeline.
- `recv` is a list of call outcomes over the bytes the peer sends. Running out of calls stands for a `recv` that never returns, or, in `read_from_server`, for the loop that keeps calling `recv` after the server closed.
- Logging (`printf`, `perror`, `fflush`) has no effect on the state. `extract_last_header_line` is called by the pipeline only to log, so it is modelled on its own and not in the transition.
- Failures of `malloc`, `realloc` and `strdup` are left out, except the key copy in `evict_lru_entry` (`allocOk`).
- CacheControl.ParseCacheControl: the `malloc` of the header copy and the `strdup` of the value (`src/cache.c:216-219`, `234`) are taken to succeed. When either fails, `check_no_cache` returns 0 (`src/cache.c:163-165`) and `get_max_age` returns -1 (`src/cache.c:250-252`), so a `no-store` response would be stored and never go stale; the model does not cover that run.
- Integer widths: the `unsigned long` usage counter, the `int` buffer sizes and counts, and the `time_t` arithmetic are unbounded. `atoi` overflow is not modelled.
- The `ULONG_MAX` start value of the LRU scan is not modelled: an unbounded counter never reaches it, so the first valid slot always starts the scan.
- Strings are NUL-free. A NUL inside a message would end it early for the C string functions. `response_size` is taken to be the response length.
- `time(NULL)` is read once at the lookup and once at the store; they are the parameters `lookupTime` and `storeTime`.
- HttpText.ExtractRequestUri: requires a blank after the method and another after the URI, because without them the C loops run past the end of the string. The pipeline as written treats such a request as undefined; see Findings.
- Pipeline.HandleConnection: the URI is only logged, so the corrected pipeline does not compute it.
- HttpText.ExtractHost: its contract does not pin down the value in general. The exact value is stated by `ExtractHostOfRequest` for requests whose first header is `Host`.
- The `malloc` failure of `extract_request_uri` that makes the pipeline close the connection at `src/proxy.c:436-441` is left out with the other allocation failures.
- The return value of `serve_from_cache`, which depends only on the send loop, is not modelled.
- `src/main.c` (argument parsing) is not part of this model. From `include/proxy.h` only `INIT_BUF_SIZE` is used.

## Findings

| source | as written | input that shows it | evidently intended | confidence | as-written member | corrected member |
|---|---|---|---|---|---|---|
| src/cache.c:114-116 | `add_cache_entry` uses the result of `find_invalid_entry` without checking it for -1, and so writes `entries[-1]` when every slot is valid | a full cache where the `malloc` in `evict_lru_entry` fails, then a new request shorter than REQUEST_SIZE whose response is cacheable (`src/proxy.c:471-538`) | return -1 and leave the cache unchanged, as the comment at `src/cache.c:107` says | not executed | CacheEngine.AddCacheEntryAsWritten, Pipeline.AsWrittenUndefined | CacheEngine.AddCacheEntry, Pipeline.AsWrittenAgrees |
| src/proxy.c:243-260 | `extract_request_uri` scans for a blank, past blanks, and for the next blank without checking for the end of the string; the pipeline calls it on every request it reads, with caching on or off (`src/proxy.c:434`), and on every key an LRU eviction hands back (`src/proxy.c:477`) | the request `GET\r\n\r\n`, which has no space or tab, or any request without a blank after its URI; an evicted key cannot lack them, since every stored key was scanned first | each scan also stops at the terminating NUL | not executed | HttpText.ExtractRequestUri, Pipeline.HandleConnectionAsWritten, Pipeline.BlanklessRequestUndefined, Pipeline.UndelimitedEvictionUndefined | HttpText.RequestUri, Pipeline.HandleConnection, Pipeline.StartProxyAsWrittenAgrees |
