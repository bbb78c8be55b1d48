/**
 * The response cache of src/cache.c: a fixed array of CACHE_SIZE slots, each
 * keyed by the full request text, with LRU ticks drawn from a shared usage
 * counter and a max-age taken from the response's Cache-Control header.
 *
 * The C functions that return an index or -1 return an `Option<nat>` here
 * (None stands for -1); the functions that mutate the cache return the new
 * cache, and those that call `update_last_used` also return the new counter.
 */
module CacheEngine {
  import opened Wrappers
  import CacheControl

  const RequestSize: nat := 2048
  const ResponseSize: nat := 102400
  const CacheSize: nat := 10

  /** cache_entry_t; `request`/`response` are the stored texts, `responseSize` is -1 while empty. */
  datatype Entry = Entry(
    index: nat,
    valid: bool,
    request: string,
    response: string,
    responseSize: int,
    lastUsed: nat,
    cachedTime: int,
    maxAge: int)

  /** cache_t: the count the code maintains and the slots. */
  datatype Cache = Cache(validEntries: int, entries: seq<Entry>)

  /** The cache after `update_last_used`, with the shared counter it advanced. */
  datatype Stamp = Stamp(cache: Cache, counter: nat)

  /** `evict_lru_entry`: the cache afterwards and the evicted request (None stands for NULL). */
  datatype Eviction = Eviction(cache: Cache, evicted: Option<string>)

  /** `add_cache_entry`: the cache and counter afterwards and the index used (None stands for -1). */
  datatype Insert = Insert(cache: Cache, counter: nat, index: Option<nat>)

  /** `serve_from_cache`: the cache and counter afterwards and the bytes sent to the client. */
  datatype Serve = Serve(cache: Cache, counter: nat, bytes: string)

  function Bit(b: bool): nat {
    if b then 1 else 0
  }

  /** The number of valid slots. */
  function CountValid(es: seq<Entry>): nat {
    if |es| == 0 then 0 else Bit(es[0].valid) + CountValid(es[1..])
  }

  /** The array has CACHE_SIZE slots and slot `i` records index `i`. */
  predicate Sized(c: Cache) {
    |c.entries| == CacheSize && forall i :: 0 <= i < |c.entries| ==> c.entries[i].index == i
  }

  /** What a valid slot holds: a key that fits, a response within bounds, its size, its max-age and a tick already issued. */
  predicate EntryOk(e: Entry, counter: nat) {
    |e.request| < RequestSize && |e.response| <= ResponseSize && e.responseSize == |e.response|
    && e.maxAge == CacheControl.GetMaxAge(e.response) && 0 < e.lastUsed <= counter
  }

  /** At most one valid slot per key. */
  predicate UniqueKeys(es: seq<Entry>) {
    forall i, j :: 0 <= i < |es| && 0 <= j < |es| && es[i].valid && es[j].valid && es[i].request == es[j].request ==> i == j
  }

  /** Valid slots carry pairwise-distinct ticks. */
  predicate DistinctTicks(es: seq<Entry>) {
    forall i, j :: 0 <= i < |es| && 0 <= j < |es| && es[i].valid && es[j].valid && es[i].lastUsed == es[j].lastUsed ==> i == j
  }

  /** The cache invariant under the usage counter `counter`. */
  predicate Inv(c: Cache, counter: nat) {
    Sized(c)
    && c.validEntries == CountValid(c.entries)
    && (forall i :: 0 <= i < |c.entries| && c.entries[i].valid ==> EntryOk(c.entries[i], counter))
    && UniqueKeys(c.entries)
    && DistinctTicks(c.entries)
  }

  /** init_cache: every slot empty, valid_entries 0. */
  function InitCache(): (c: Cache)
    ensures Sized(c) && c.validEntries == 0
    ensures forall i :: 0 <= i < |c.entries| ==>
              !c.entries[i].valid && c.entries[i].lastUsed == 0 && c.entries[i].maxAge == -1
              && c.entries[i].request == [] && c.entries[i].response == [] && c.entries[i].responseSize == -1
              && c.entries[i].cachedTime == 0
  {
    Cache(0, seq(CacheSize, i requires 0 <= i => Entry(i, false, [], [], -1, 0, 0, -1)))
  }

  /** A run of slots none of which is valid counts zero. */
  lemma {:induction false} CountValidNone(es: seq<Entry>)
    requires forall i :: 0 <= i < |es| ==> !es[i].valid
    ensures CountValid(es) == 0
  {
    if |es| > 0 {
      CountValidNone(es[1..]);
    }
  }

  /** The freshly initialised cache satisfies the invariant under the initial usage counter 0. */
  lemma InitCacheInv()
    ensures Inv(InitCache(), 0)
  {
    CountValidNone(InitCache().entries);
  }

  function FirstInvalidFrom(es: seq<Entry>, i: nat): (r: Option<nat>)
    requires i <= |es|
    decreases |es| - i
    ensures r.Some? ==> i <= r.value < |es| && !es[r.value].valid
    ensures r.Some? ==> forall j :: i <= j < r.value ==> es[j].valid
    ensures r.None? <==> forall j :: i <= j < |es| ==> es[j].valid
  {
    if i == |es| then None
    else if !es[i].valid then Some(i)
    else FirstInvalidFrom(es, i + 1)
  }

  /** find_invalid_entry: the lowest free slot; None exactly when every slot is valid. */
  function FindInvalidEntry(c: Cache): (r: Option<nat>)
    ensures r.Some? ==> r.value < |c.entries| && !c.entries[r.value].valid
    ensures r.Some? ==> forall j :: 0 <= j < r.value ==> c.entries[j].valid
    ensures r.None? <==> forall j :: 0 <= j < |c.entries| ==> c.entries[j].valid
  {
    FirstInvalidFrom(c.entries, 0)
  }

  /** A valid slot holding exactly this key. */
  predicate IsHit(e: Entry, request: string) {
    e.valid && e.request == request
  }

  function FirstHitFrom(es: seq<Entry>, request: string, i: nat): (r: Option<nat>)
    requires i <= |es|
    decreases |es| - i
    ensures r.Some? ==> i <= r.value < |es| && IsHit(es[r.value], request)
    ensures r.Some? ==> forall j :: i <= j < r.value ==> !IsHit(es[j], request)
    ensures r.None? <==> forall j :: i <= j < |es| ==> !IsHit(es[j], request)
  {
    if i == |es| then None
    else if IsHit(es[i], request) then Some(i)
    else FirstHitFrom(es, request, i + 1)
  }

  /** search_cache_hit: the lowest valid slot whose key equals `request` (strcmp); None when there is none. */
  function SearchCacheHit(c: Cache, request: string): (r: Option<nat>)
    ensures r.Some? ==> r.value < |c.entries| && IsHit(c.entries[r.value], request)
    ensures r.Some? ==> forall j :: 0 <= j < r.value ==> !IsHit(c.entries[j], request)
    ensures r.None? <==> forall j :: 0 <= j < |c.entries| ==> !IsHit(c.entries[j], request)
  {
    FirstHitFrom(c.entries, request, 0)
  }

  /**
   * `best` is the least-recently-used valid slot among the first `i`, ties
   * going to the lowest index; None when none of them is valid.
   */
  predicate IsLruUpTo(es: seq<Entry>, i: nat, best: Option<nat>)
    requires i <= |es|
  {
    match best
    case None => forall j :: 0 <= j < i ==> !es[j].valid
    case Some(b) =>
      b < i && es[b].valid
      && (forall j :: 0 <= j < i && es[j].valid ==> es[b].lastUsed <= es[j].lastUsed)
      && (forall j :: 0 <= j < b && es[j].valid ==> es[b].lastUsed < es[j].lastUsed)
  }

  /** The scan of evict_lru_entry from slot `i` on; the strict `<` keeps the earlier slot on a tie. */
  function LruFrom(es: seq<Entry>, i: nat, best: Option<nat>): (r: Option<nat>)
    requires i <= |es| && IsLruUpTo(es, i, best)
    decreases |es| - i
    ensures IsLruUpTo(es, |es|, r)
  {
    if i == |es| then best
    else if es[i].valid && (best.None? || es[i].lastUsed < es[best.value].lastUsed) then LruFrom(es, i + 1, Some(i))
    else LruFrom(es, i + 1, best)
  }

  /** The slot evict_lru_entry picks: the valid slot with the smallest tick, the lowest such index on a tie. */
  function LruIndex(es: seq<Entry>): (r: Option<nat>)
    ensures r.None? <==> forall j :: 0 <= j < |es| ==> !es[j].valid
    ensures r.Some? ==> r.value < |es| && es[r.value].valid
    ensures r.Some? ==> forall j :: 0 <= j < |es| && es[j].valid ==> es[r.value].lastUsed <= es[j].lastUsed
    ensures r.Some? ==> forall j :: 0 <= j < r.value && es[j].valid ==> es[r.value].lastUsed < es[j].lastUsed
  {
    LruFrom(es, 0, None)
  }

  /** The LRU choice is unique: a slot with the LRU property is the one picked. */
  lemma LruIndexIs(es: seq<Entry>, k: nat)
    requires k < |es| && es[k].valid
    requires forall j :: 0 <= j < |es| && es[j].valid ==> es[k].lastUsed <= es[j].lastUsed
    requires forall j :: 0 <= j < k && es[j].valid ==> es[k].lastUsed < es[j].lastUsed
    ensures LruIndex(es) == Some(k)
  {
    var r := LruIndex(es);
    var b := r.value;
    assert es[b].lastUsed == es[k].lastUsed;
    assert !(b < k);
    assert !(k < b);
  }

  /**
   * evict_lru_entry: with no valid slot, or when the copy of the key cannot
   * be allocated (`allocOk` false), nothing changes and NULL is returned.
   * Otherwise the LRU slot is marked invalid with its tick, size and texts
   * cleared (its cached_time and max_age are left as they were), the count
   * drops by one and the slot's key is returned.
   */
  function EvictLru(c: Cache, allocOk: bool): (r: Eviction)
    ensures r.evicted.None? <==> !allocOk || forall j :: 0 <= j < |c.entries| ==> !c.entries[j].valid
    ensures r.evicted.None? ==> r.cache == c
    ensures |r.cache.entries| == |c.entries|
    ensures r.evicted.Some? ==>
              var k := LruIndex(c.entries).value;
              var e := r.cache.entries[k];
              r.evicted.value == c.entries[k].request
              && r.cache.validEntries == c.validEntries - 1
              && (forall j :: 0 <= j < |c.entries| && j != k ==> r.cache.entries[j] == c.entries[j])
              && !e.valid && e.lastUsed == 0 && e.responseSize == -1 && e.request == [] && e.response == []
              && e.index == c.entries[k].index && e.cachedTime == c.entries[k].cachedTime
              && e.maxAge == c.entries[k].maxAge
  {
    match LruIndex(c.entries)
    case None => Eviction(c, None)
    case Some(k) =>
      if !allocOk then Eviction(c, None)
      else
        var e := c.entries[k];
        var cleared := e.(valid := false, lastUsed := 0, responseSize := -1, request := [], response := []);
        Eviction(Cache(c.validEntries - 1, c.entries[k := cleared]), Some(e.request))
  }

  /** update_last_used: the counter advances by one and slot `i` is stamped with the new value; nothing else changes. */
  function UpdateLastUsed(c: Cache, i: nat, counter: nat): (r: Stamp)
    requires i < |c.entries|
    ensures r.counter == counter + 1
    ensures r.cache.validEntries == c.validEntries && |r.cache.entries| == |c.entries|
    ensures r.cache.entries[i] == c.entries[i].(lastUsed := r.counter)
    ensures forall j :: 0 <= j < |c.entries| && j != i ==> r.cache.entries[j] == c.entries[j]
  {
    Stamp(Cache(c.validEntries, c.entries[i := c.entries[i].(lastUsed := counter + 1)]), counter + 1)
  }

  /** Requests of REQUEST_SIZE characters or more, or responses beyond RESPONSE_SIZE, are never stored. */
  predicate Oversized(request: string, response: string) {
    |request| >= RequestSize || |response| > ResponseSize
  }

  /** Slot `k` filled with a new entry and stamped: the body of add_cache_entry once a slot is chosen. */
  function Fill(c: Cache, k: nat, counter: nat, request: string, response: string, now: int): (r: Insert)
    requires k < |c.entries|
    ensures r.index == Some(k) && r.counter == counter + 1 && |r.cache.entries| == |c.entries|
    ensures r.cache.entries[k] == Entry(c.entries[k].index, true, request, response, |response|, counter + 1,
                                         now, CacheControl.GetMaxAge(response))
    ensures forall j :: 0 <= j < |c.entries| && j != k ==> r.cache.entries[j] == c.entries[j]
    ensures r.cache.validEntries == if c.validEntries < CacheSize then c.validEntries + 1 else c.validEntries
  {
    var e := c.entries[k].(valid := true, request := request, response := response, responseSize := |response|);
    var s := UpdateLastUsed(Cache(c.validEntries, c.entries[k := e]), k, counter);
    var e' := s.cache.entries[k].(cachedTime := now, maxAge := CacheControl.GetMaxAge(response));
    var count := if c.validEntries < CacheSize then c.validEntries + 1 else c.validEntries;
    Insert(Cache(count, s.cache.entries[k := e']), s.counter, Some(k))
  }

  /** What add_cache_entry does as written: with no free slot it writes to entries[-1]. */
  datatype WrittenInsert = InBounds(result: Insert) | OutOfBounds

  /**
   * add_cache_entry as written: oversized input is rejected with nothing
   * changed, and otherwise the index find_invalid_entry returns is used
   * without checking it for -1.
   */
  function AddCacheEntryAsWritten(c: Cache, counter: nat, request: string, response: string, now: int): (r: WrittenInsert)
    ensures Oversized(request, response) ==> r == InBounds(Insert(c, counter, None))
    ensures r.OutOfBounds? <==> !Oversized(request, response) && forall j :: 0 <= j < |c.entries| ==> c.entries[j].valid
  {
    if Oversized(request, response) then InBounds(Insert(c, counter, None))
    else match FindInvalidEntry(c)
      case None => OutOfBounds
      case Some(k) => InBounds(Fill(c, k, counter, request, response, now))
  }

  /**
   * add_cache_entry as its comment describes it: -1 with nothing changed for
   * oversized input or a full cache; otherwise the lowest free slot is filled
   * with the key, the response, its size, `now`, its max-age and a fresh tick.
   */
  function AddCacheEntry(c: Cache, counter: nat, request: string, response: string, now: int): (r: Insert)
    ensures r.index.None? <==> Oversized(request, response) || FindInvalidEntry(c).None?
    ensures r.index.None? ==> r.cache == c && r.counter == counter
    ensures r.index.Some? ==>
              var k := r.index.value;
              r.index == FindInvalidEntry(c) && r.counter == counter + 1
              && |r.cache.entries| == |c.entries|
              && r.cache.entries[k] == Entry(c.entries[k].index, true, request, response, |response|, counter + 1,
                                             now, CacheControl.GetMaxAge(response))
              && (forall j :: 0 <= j < |c.entries| && j != k ==> r.cache.entries[j] == c.entries[j])
              && r.cache.validEntries == if c.validEntries < CacheSize then c.validEntries + 1 else c.validEntries
  {
    if Oversized(request, response) then Insert(c, counter, None)
    else match FindInvalidEntry(c)
      case None => Insert(c, counter, None)
      case Some(k) => Fill(c, k, counter, request, response, now)
  }

  /** With a free slot, the code as written and as described agree. */
  lemma AddAsWrittenAgrees(c: Cache, counter: nat, request: string, response: string, now: int)
    requires exists j :: 0 <= j < |c.entries| && !c.entries[j].valid
    ensures AddCacheEntryAsWritten(c, counter, request, response, now) == InBounds(AddCacheEntry(c, counter, request, response, now))
  {
  }

  /** Whenever add_cache_entry as written stays in bounds, it does what its comment describes. */
  lemma AddAsWrittenInBounds(c: Cache, counter: nat, request: string, response: string, now: int)
    ensures var r := AddCacheEntryAsWritten(c, counter, request, response, now);
            r.InBounds? ==> r.result == AddCacheEntry(c, counter, request, response, now)
  {
  }

  /** With every slot valid, a request that passes the size check makes the code as written index entries[-1]. */
  lemma AddAsWrittenOutOfBounds(c: Cache, counter: nat, request: string, response: string, now: int)
    requires Inv(c, counter) && c.validEntries == CacheSize
    requires !Oversized(request, response)
    ensures AddCacheEntryAsWritten(c, counter, request, response, now) == OutOfBounds
  {
    CountValidFull(c.entries);
  }

  /**
   * serve_from_cache, without the send loop: the slot is stamped with a
   * fresh tick and its stored response is what the client receives.
   */
  function ServeFromCache(c: Cache, i: nat, counter: nat): (r: Serve)
    requires i < |c.entries|
    ensures r.bytes == c.entries[i].response
    ensures r.counter == counter + 1 && r.cache.validEntries == c.validEntries
    ensures |r.cache.entries| == |c.entries| && r.cache.entries[i] == c.entries[i].(lastUsed := counter + 1)
    ensures forall j :: 0 <= j < |c.entries| && j != i ==> r.cache.entries[j] == c.entries[j]
  {
    var s := UpdateLastUsed(c, i, counter);
    Serve(s.cache, s.counter, c.entries[i].response)
  }

  /**
   * is_timed_out: an entry whose max_age is -1 never goes stale; any other
   * entry is stale once `now - cached_time >= max_age`.
   */
  function IsTimedOut(c: Cache, i: nat, now: int): (r: bool)
    requires i < |c.entries|
    ensures r <==> c.entries[i].maxAge != -1 && c.entries[i].cachedTime + c.entries[i].maxAge <= now
  {
    var e := c.entries[i];
    e.maxAge != -1 && now - e.cachedTime >= e.maxAge
  }

  /** Staleness only grows with time; a max-age of -1 never makes an entry stale, and any other max-age does eventually. */
  lemma StaleIsMonotone(c: Cache, i: nat, now: int, later: int)
    requires i < |c.entries| && now <= later
    ensures IsTimedOut(c, i, now) ==> IsTimedOut(c, i, later)
    ensures c.entries[i].maxAge == -1 ==> !IsTimedOut(c, i, later)
    ensures c.entries[i].maxAge != -1 ==> IsTimedOut(c, i, c.entries[i].cachedTime + c.entries[i].maxAge)
  {
  }

  /**
   * A freshly stored entry never goes stale when its response has max-age -1;
   * otherwise it is stale exactly once max-age seconds have passed since the
   * store, so a max-age of 0 is stale from the moment it is stored.
   */
  lemma FreshlyAddedStaleness(c: Cache, counter: nat, request: string, response: string, now: int, later: int)
    requires AddCacheEntry(c, counter, request, response, now).index.Some?
    ensures var r := AddCacheEntry(c, counter, request, response, now);
            var m := CacheControl.GetMaxAge(response);
            (m == -1 ==> !IsTimedOut(r.cache, r.index.value, later))
            && (m != -1 ==> (IsTimedOut(r.cache, r.index.value, later) <==> later - now >= m))
  {
  }

  /**
   * evict_cache_entry: slot `i` becomes invalid with its tick, time, size
   * and texts reset and max_age -1, the count drops by one, and no other
   * slot changes.
   */
  function EvictCacheEntry(c: Cache, i: nat): (r: Cache)
    requires i < |c.entries|
    ensures r.validEntries == c.validEntries - 1 && |r.entries| == |c.entries|
    ensures r.entries[i] == Entry(c.entries[i].index, false, [], [], -1, 0, 0, -1)
    ensures forall j :: 0 <= j < |c.entries| && j != i ==> r.entries[j] == c.entries[j]
  {
    var e := c.entries[i].(valid := false, lastUsed := 0, cachedTime := 0, maxAge := -1,
                           responseSize := -1, request := [], response := []);
    Cache(c.validEntries - 1, c.entries[i := e])
  }

  // ---------------------------------------------------------------------
  // Counting valid slots

  /** Replacing one slot changes the count by the difference of the two valid bits. */
  lemma {:induction false} CountValidUpdate(es: seq<Entry>, i: nat, e: Entry)
    requires i < |es|
    ensures CountValid(es[i := e]) == CountValid(es) - Bit(es[i].valid) + Bit(e.valid)
  {
    if i == 0 {
      assert es[i := e][1..] == es[1..];
    } else {
      assert es[i := e][1..] == es[1..][i - 1 := e];
      CountValidUpdate(es[1..], i - 1, e);
    }
  }

  /** The count never exceeds the number of slots, and reaches it exactly when every slot is valid. */
  lemma {:induction false} CountValidFull(es: seq<Entry>)
    ensures CountValid(es) <= |es|
    ensures CountValid(es) == |es| <==> forall j :: 0 <= j < |es| ==> es[j].valid
  {
    if |es| > 0 {
      CountValidFull(es[1..]);
      assert forall j :: 0 < j < |es| ==> es[j] == es[1..][j - 1];
    }
  }

  /** A cache that keeps the invariant holds between 0 and CACHE_SIZE valid entries. */
  lemma CountInRange(c: Cache, counter: nat)
    requires Inv(c, counter)
    ensures 0 <= c.validEntries <= CacheSize
    ensures c.validEntries < CacheSize <==> FindInvalidEntry(c).Some?
  {
    CountValidFull(c.entries);
  }

  // ---------------------------------------------------------------------
  // The invariant under each operation

  /** Touching a valid slot keeps the invariant under the advanced counter, and the slot becomes strictly most recent. */
  lemma TouchKeepsInv(c: Cache, i: nat, counter: nat)
    requires Inv(c, counter) && i < |c.entries| && c.entries[i].valid
    ensures Inv(UpdateLastUsed(c, i, counter).cache, counter + 1)
    ensures var es := UpdateLastUsed(c, i, counter).cache.entries;
            forall j :: 0 <= j < |es| && j != i && es[j].valid ==> es[j].lastUsed < es[i].lastUsed
  {
    var r := UpdateLastUsed(c, i, counter).cache;
    assert r == Cache(c.validEntries, c.entries[i := r.entries[i]]);
    SetSlotKeepsInv(c, counter, counter + 1, i, r.entries[i], c.validEntries);
  }

  /** A slot touched last is not the one the next LRU eviction picks while another slot is valid. */
  lemma TouchedNotEvicted(c: Cache, i: nat, counter: nat, other: nat)
    requires Inv(c, counter) && i < |c.entries| && c.entries[i].valid
    requires other < |c.entries| && other != i && c.entries[other].valid
    ensures LruIndex(UpdateLastUsed(c, i, counter).cache.entries) != Some(i)
  {
    TouchKeepsInv(c, i, counter);
  }

  /** Removing a slot keeps the invariant, and its key is no longer found. */
  lemma EvictCacheEntryKeepsInv(c: Cache, i: nat, counter: nat)
    requires Inv(c, counter) && i < |c.entries| && c.entries[i].valid
    ensures Inv(EvictCacheEntry(c, i), counter)
    ensures SearchCacheHit(EvictCacheEntry(c, i), c.entries[i].request).None?
  {
    var r := EvictCacheEntry(c, i);
    assert r == Cache(c.validEntries - 1, c.entries[i := r.entries[i]]);
    SetSlotKeepsInv(c, counter, counter, i, r.entries[i], c.validEntries - 1);
  }

  /** LRU eviction keeps the invariant, and the evicted key is no longer found. */
  lemma EvictLruKeepsInv(c: Cache, counter: nat, allocOk: bool)
    requires Inv(c, counter)
    ensures Inv(EvictLru(c, allocOk).cache, counter)
    ensures var r := EvictLru(c, allocOk);
            r.evicted.Some? ==> SearchCacheHit(r.cache, r.evicted.value).None? && r.cache.validEntries == c.validEntries - 1
  {
    var r := EvictLru(c, allocOk);
    if r.evicted.Some? {
      var k := LruIndex(c.entries).value;
      assert r.cache == Cache(c.validEntries - 1, c.entries[k := r.cache.entries[k]]);
      SetSlotKeepsInv(c, counter, counter, k, r.cache.entries[k], c.validEntries - 1);
    }
  }

  /**
   * Replacing one slot keeps the invariant under a counter at least as large,
   * when the new slot records its index, a valid new slot is well formed and
   * shares neither key nor tick with another valid slot, and the count moves
   * by the change in that slot's valid bit.
   */
  lemma SetSlotKeepsInv(c: Cache, counter: nat, later: nat, k: nat, e: Entry, count: int)
    requires Inv(c, counter) && counter <= later && k < |c.entries| && e.index == k
    requires e.valid ==> EntryOk(e, later)
    requires e.valid ==> forall j :: 0 <= j < |c.entries| && j != k && c.entries[j].valid ==>
                            c.entries[j].request != e.request && c.entries[j].lastUsed != e.lastUsed
    requires count == c.validEntries - Bit(c.entries[k].valid) + Bit(e.valid)
    ensures Inv(Cache(count, c.entries[k := e]), later)
  {
    CountValidUpdate(c.entries, k, e);
  }

  /** Adding a key the cache does not hold keeps the invariant under the new counter. */
  lemma AddKeepsInv(c: Cache, counter: nat, request: string, response: string, now: int)
    requires Inv(c, counter) && SearchCacheHit(c, request).None?
    ensures var r := AddCacheEntry(c, counter, request, response, now);
            Inv(r.cache, r.counter)
  {
    var r := AddCacheEntry(c, counter, request, response, now);
    if r.index.Some? {
      var k := r.index.value;
      var e := r.cache.entries[k];
      CountInRange(c, counter);
      assert r.cache == Cache(c.validEntries + 1, c.entries[k := e]);
      SetSlotKeepsInv(c, counter, counter + 1, k, e, c.validEntries + 1);
    }
  }

  /** The counter only grows: every tick is below it, so a later one is fresh. */
  lemma InvUnderLaterCounter(c: Cache, counter: nat, later: nat)
    requires Inv(c, counter) && counter <= later
    ensures Inv(c, later)
  {
  }

  // ---------------------------------------------------------------------
  // Round trips

  /** A stored key is found again, and serving it returns the stored response. */
  lemma AddThenSearch(c: Cache, counter: nat, request: string, response: string, now: int)
    requires Inv(c, counter) && SearchCacheHit(c, request).None?
    requires AddCacheEntry(c, counter, request, response, now).index.Some?
    ensures var r := AddCacheEntry(c, counter, request, response, now);
            SearchCacheHit(r.cache, request) == r.index
            && ServeFromCache(r.cache, r.index.value, r.counter).bytes == response
  {
    var r := AddCacheEntry(c, counter, request, response, now);
    AddKeepsInv(c, counter, request, response, now);
    var k := r.index.value;
    var s := SearchCacheHit(r.cache, request);
    assert IsHit(r.cache.entries[k], request);
  }

  /** With room in the cache and sizes in bounds, the add succeeds. */
  lemma AddSucceeds(c: Cache, counter: nat, request: string, response: string, now: int)
    requires Inv(c, counter) && c.validEntries < CacheSize && !Oversized(request, response)
    ensures AddCacheEntry(c, counter, request, response, now).index.Some?
  {
    CountInRange(c, counter);
  }
}
