/** The bounded cache of plugins/doh/cache.go. */
module Cache {

  import opened Strings

  type Payload = seq<int>

  datatype CacheEntry = CacheEntry(response: Payload, storedAt: nat, expiresAt: nat)

  // order numbers the puts; the model counts without wrapping at 2^64.
  datatype Record = Record(entry: CacheEntry, size: nat, order: nat)

  type Records = map<string, Record>

  datatype Error = Cancelled | Unavailable

  datatype Lookup = Hit(entry: CacheEntry) | Miss | LookupFailed(error: Error)

  // ------------------------------------------------------------------
  // Sizes
  // ------------------------------------------------------------------

  ghost function Bytes(records: Records): nat
    decreases |records|
  {
    if records == map[] then 0
    else
      var key :| key in records;
      records[key].size + Bytes(records - {key})
  }

  // The sum does not depend on which record is taken first.
  lemma {:induction false} BytesWithout(records: Records, key: string)
    requires key in records
    ensures Bytes(records) == records[key].size + Bytes(records - {key})
    decreases |records|
  {
    var first :| first in records && Bytes(records) == records[first].size + Bytes(records - {first});
    if first != key {
      BytesWithout(records - {first}, key);
      BytesWithout(records - {key}, first);
      assert records - {first} - {key} == records - {key} - {first};
    }
  }

  lemma BytesWith(records: Records, key: string, record: Record)
    requires key !in records
    ensures Bytes(records[key := record]) == Bytes(records) + record.size
  {
    BytesWithout(records[key := record], key);
    assert records[key := record] - {key} == records;
  }

  function Only(records: Records, keys: set<string>): Records {
    map k | k in records && k in keys :: records[k]
  }

  lemma OnlyWithout(records: Records, left: Records, key: string)
    requires left == Only(records, left.Keys)
    ensures left - {key} == Only(records, (left - {key}).Keys) && (left - {key}).Keys == left.Keys - {key}
  {
  }

  // ------------------------------------------------------------------
  // What eviction keeps
  // ------------------------------------------------------------------

  // With a record, everything put later.
  ghost predicate UpClosed(records: Records, keys: set<string>) {
    && keys <= records.Keys
    && forall k, l :: k in keys && l in records && records[l].order > records[k].order ==> l in keys
  }

  ghost predicate Fits(records: Records, keys: set<string>, size: nat, maxEntries: int, maxBytes: int) {
    && |keys| < maxEntries
    && Bytes(Only(records, keys)) + size <= maxBytes
  }

  // The most recently put records, as many of them as leave room.
  ghost predicate IsLongestFit(records: Records, kept: set<string>, size: nat, maxEntries: int, maxBytes: int) {
    && UpClosed(records, kept) && Fits(records, kept, size, maxEntries, maxBytes)
    && forall keys :: UpClosed(records, keys) && Fits(records, keys, size, maxEntries, maxBytes) ==> keys <= kept
  }

  // Every candidate is still contained in what has not been evicted yet.
  ghost predicate CoversFits(records: Records, left: set<string>, size: nat, maxEntries: int, maxBytes: int) {
    && UpClosed(records, left)
    && forall keys :: UpClosed(records, keys) && Fits(records, keys, size, maxEntries, maxBytes) ==> keys <= left
  }

  /** What is kept is determined by the records alone: no order of iteration and
      no other run of the loop can end with other keys. */
  lemma LongestFitUnique(records: Records, a: set<string>, b: set<string>, size: nat, maxEntries: int, maxBytes: int)
    requires IsLongestFit(records, a, size, maxEntries, maxBytes)
    requires IsLongestFit(records, b, size, maxEntries, maxBytes)
    ensures a == b
  {
  }

  ghost predicate IsOldest(records: Records, key: string) {
    key in records && forall k :: k in records && k != key ==> records[key].order < records[k].order
  }

  lemma EvictionStep(records: Records, left: set<string>, oldest: string, size: nat, maxEntries: int, maxBytes: int)
    requires CoversFits(records, left, size, maxEntries, maxBytes)
    requires !Fits(records, left, size, maxEntries, maxBytes)
    requires IsOldest(Only(records, left), oldest)
    ensures CoversFits(records, left - {oldest}, size, maxEntries, maxBytes)
  {
    var only := Only(records, left);
    forall keys | UpClosed(records, keys) && Fits(records, keys, size, maxEntries, maxBytes)
      ensures keys <= left - {oldest}
    {
      assert forall k :: k in left ==> k in only;
      assert oldest in keys ==> keys == left;
    }
    assert forall k :: k in left && k != oldest ==> k in only;
  }

  // ------------------------------------------------------------------
  // The cache
  // ------------------------------------------------------------------

  // The record is in, beside the longest fit of the others.
  ghost predicate Inserted(before: Records, after: Records, key: string, record: Record, maxEntries: int,
                           maxBytes: int) {
    && key in after && after[key] == record
    && after - {key} == Only(before - {key}, after.Keys - {key})
    && IsLongestFit(before - {key}, after.Keys - {key}, record.size, maxEntries, maxBytes)
  }

  // puts lists the keys in the order of the puts, so orders are distinct.
  ghost predicate RecordsOk(records: Records, puts: seq<string>, latest: map<string, CacheEntry>) {
    forall k :: k in records ==>
      && k != "" && 1 <= records[k].order <= |puts| && puts[records[k].order - 1] == k
      && records[k].size == |k| + |records[k].entry.response|
      && k in latest && latest[k] == records[k].entry
  }

  lemma RecordsOkWith(records: Records, puts: seq<string>, latest: map<string, CacheEntry>, key: string, record: Record)
    requires RecordsOk(records, puts, latest) && key != "" && puts != [] && puts[|puts| - 1] == key
    requires record.order == |puts| && record.size == |key| + |record.entry.response|
    ensures RecordsOk(records[key := record], puts, latest[key := record.entry])
  {
  }

  lemma CountWithout(records: Records, key: string)
    requires key in records
    ensures |records - {key}| == |records| - 1
  {
  }

  lemma CountWith(records: Records, key: string, record: Record)
    requires key !in records
    ensures |records[key := record]| == |records| + 1
    ensures records[key := record] - {key} == records
  {
  }

  // Go's < on strings.
  predicate Less(a: string, b: string) {
    if b == "" then false
    else if a == "" then true
    else a[0] < b[0] || (a[0] == b[0] && Less(a[1..], b[1..]))
  }

  class MemoryCache {
    var entries: Records
    var bytes: int
    var order: nat
    const maxEntries: int
    const maxBytes: int

    // The key of every put so far, in order.
    ghost var puts: seq<string>

    // What the latest successful Put since the last Reset stored, per key.
    ghost var latest: map<string, CacheEntry>

    ghost predicate Accounted()
      reads this
    {
      bytes == Bytes(entries) && order == |puts| && RecordsOk(entries, puts, latest)
    }

    ghost predicate Valid()
      reads this
    {
      Accounted() && (entries == map[] || (|entries| <= maxEntries && bytes <= maxBytes))
    }

    constructor (maxEntries: int, maxBytes: int)
      ensures Valid() && entries == map[] && order == 0
      ensures this.maxEntries == maxEntries && this.maxBytes == maxBytes
    {
      this.maxEntries, this.maxBytes := maxEntries, maxBytes;
      entries, bytes, order, puts, latest := map[], 0, 0, [], map[];
    }

    // delete(entries, key), with its size taken off the counter.
    method Drop(key: string)
      requires Accounted() && key in entries
      modifies this`entries, this`bytes
      ensures Accounted() && entries == old(entries) - {key}
      ensures |entries| == |old(entries)| - 1 && bytes <= old(bytes)
    {
      BytesWithout(entries, key);
      CountWithout(entries, key);
      bytes := bytes - entries[key].size;
      entries := entries - {key};
    }

    // entries[key] = record, with its size added to the counter.
    method Add(key: string, record: Record)
      requires Accounted() && key != "" && key !in entries
      requires puts != [] && puts[|puts| - 1] == key
      requires record.order == order && record.size == |key| + |record.entry.response|
      modifies this`entries, this`bytes, this`latest
      ensures Accounted() && entries == old(entries)[key := record] && latest == old(latest)[key := record.entry]
      ensures |entries| == |old(entries)| + 1 && bytes == old(bytes) + record.size
      ensures entries - {key} == old(entries)
    {
      BytesWith(entries, key, record);
      CountWith(entries, key, record);
      RecordsOkWith(entries, puts, latest, key, record);
      entries := entries[key := record];
      bytes := bytes + record.size;
      latest := latest[key := record.entry];
    }

    /** Get: a hit is the latest successful put of the key, not yet expired. */
    method Get(cancelled: bool, key: string, now: nat) returns (r: Lookup)
      requires Valid()
      modifies this`entries, this`bytes
      ensures Valid()
      ensures cancelled <==> r.LookupFailed?
      ensures r.Hit? ==> key in latest && r.entry == latest[key] && now < r.entry.expiresAt
      ensures r.Hit? <==> !cancelled && key in old(entries) && now < old(entries)[key].entry.expiresAt
      ensures entries == if r.Miss? then old(entries) - {key} else old(entries)
    {
      if cancelled {
        return LookupFailed(Cancelled);
      }
      if key !in entries {
        assert entries - {key} == entries;
        return Miss;
      }
      var record := entries[key];
      if now >= record.entry.expiresAt {
        Drop(key);
        return Miss;
      }
      return Hit(record.entry);
    }

    // The search for the oldest record; the map is visited in any order.
    method FindOldest() returns (oldestKey: string)
      requires Accounted()
      ensures oldestKey == "" <==> entries == map[]
      ensures oldestKey != "" ==> IsOldest(entries, oldestKey)
    {
      oldestKey := "";
      var oldest := 0;
      var left := entries.Keys;
      while left != {}
        invariant left <= entries.Keys
        invariant oldestKey == "" <==> left == entries.Keys
        invariant oldestKey != "" ==>
                    && oldestKey in entries && oldestKey !in left && oldest == entries[oldestKey].order
                    && forall k :: k in entries && k !in left && k != oldestKey ==> oldest < entries[k].order
      {
        var currentKey :| currentKey in left;
        left := left - {currentKey};
        var current := entries[currentKey];
        if oldestKey == "" || current.order < oldest || (current.order == oldest && Less(currentKey, oldestKey)) {
          oldestKey, oldest := currentKey, current.order;
        }
      }
    }

    // The eviction loop of Put: make room for a record of this size among the
    // other entries, or empty the cache.
    method MakeRoom(size: nat) returns (ok: bool)
      requires Accounted()
      modifies this`entries, this`bytes
      ensures Accounted()
      ensures ok ==> |entries| < maxEntries && bytes + size <= maxBytes
      ensures ok ==> entries == Only(old(entries), entries.Keys)
      ensures ok ==> IsLongestFit(old(entries), entries.Keys, size, maxEntries, maxBytes)
      ensures !ok ==> entries == map[] && (maxEntries <= 0 || size > maxBytes)
    {
      ghost var others := entries;
      assert Only(others, others.Keys) == others;
      while |entries| >= maxEntries || bytes + size > maxBytes
        invariant Accounted()
        invariant entries == Only(others, entries.Keys)
        invariant CoversFits(others, entries.Keys, size, maxEntries, maxBytes)
        decreases |entries|
      {
        var oldestKey := FindOldest();
        if oldestKey == "" {
          return false;
        }
        EvictionStep(others, entries.Keys, oldestKey, size, maxEntries, maxBytes);
        OnlyWithout(others, entries, oldestKey);
        Drop(oldestKey);
      }
      return true;
    }

    // Remove what the key held before and number the new put.
    method Forget(key: string)
      requires Accounted()
      modifies this`entries, this`bytes, this`order, this`puts
      ensures Accounted() && entries == old(entries) - {key}
      ensures order == old(order) + 1 && puts == old(puts) + [key]
    {
      if key in entries {
        Drop(key);
      }
      assert entries == old(entries) - {key};
      order, puts := order + 1, puts + [key];
    }

    // Put after its checks on the arguments.
    method Insert(key: string, entry: CacheEntry) returns (ok: bool)
      requires Accounted() && key != ""
      modifies this
      ensures Valid() && order == old(order) + 1
      ensures ok <==> 0 < maxEntries && |key| + |entry.response| <= maxBytes
      ensures ok ==>
                Inserted(old(entries), entries, key, Record(entry, |key| + |entry.response|, order),
                         maxEntries, maxBytes)
      ensures latest == if ok then old(latest)[key := entry] else old(latest)
      ensures !ok ==> entries == map[]
    {
      Forget(key);
      var record := Record(entry, |key| + |entry.response|, order);
      ok := MakeRoom(record.size);
      if ok {
        ghost var kept := entries.Keys;
        Add(key, record);
        assert entries.Keys - {key} == kept;
      }
    }

    /** Put. It fails without a trace for a bad argument; otherwise it either
        stores the record beside the longest fitting run of most recent other
        records, or empties the cache when the record can never fit. */
    method Put(cancelled: bool, key: string, entry: CacheEntry) returns (error: Option<Error>)
      requires Valid()
      modifies this
      ensures Valid()
      ensures error == None <==> !cancelled && key != "" && 0 < maxEntries && |key| + |entry.response| <= maxBytes
      ensures error == None ==>
                && order == old(order) + 1 && latest == old(latest)[key := entry]
                && Inserted(old(entries), entries, key, Record(entry, |key| + |entry.response|, order),
                            maxEntries, maxBytes)
      ensures error != None ==> latest == old(latest) && error == Some(if cancelled then Cancelled else Unavailable)
      ensures error != None && (cancelled || key == "" || |entry.response| > maxBytes) ==>
                entries == old(entries) && order == old(order)
      ensures error != None && !(cancelled || key == "" || |entry.response| > maxBytes) ==> entries == map[]
      ensures error != None ==>
                (entries == old(entries) <==>
                 cancelled || key == "" || |entry.response| > maxBytes || old(entries) == map[])
    {
      if cancelled {
        return Some(Cancelled);
      }
      if |key| == 0 || |entry.response| > maxBytes {
        return Some(Unavailable);
      }
      var ok := Insert(key, entry);
      return if ok then None else Some(Unavailable);
    }

    /** Reset. */
    method Reset(cancelled: bool) returns (error: Option<Error>)
      requires Valid()
      modifies this
      ensures Valid() && order == old(order)
      ensures error == if cancelled then Some(Cancelled) else None
      ensures entries == if cancelled then old(entries) else map[]
      ensures latest == if cancelled then old(latest) else map[]
    {
      if cancelled {
        return Some(Cancelled);
      }
      entries, bytes, latest := map[], 0, map[];
      return None;
    }

    /** Stats. */
    method Stats() returns (count: int, size: int)
      requires Valid()
      ensures count == |entries| && size == Bytes(entries)
      ensures count == 0 || (count <= maxEntries && size <= maxBytes)
    {
      return |entries|, bytes;
    }
  }

  method RefusedPut(cache: MemoryCache, key: string, entry: CacheEntry) returns (error: Option<Error>)
    requires cache.Valid() && key != "" && |entry.response| <= cache.maxBytes < |key| + |entry.response|
    modifies cache
    ensures cache.Valid() && error == Some(Unavailable) && cache.entries == map[]
  {
    error := cache.Put(false, key, entry);
    assert error != None;
  }

  /** A put that fits without its key and not with it fails, and takes every entry
      along, also one that was found just before. */
  method LosingPut(cache: MemoryCache, kept: string, key: string, entry: CacheEntry, now: nat)
    returns (before: Lookup, error: Option<Error>, after: Lookup)
    requires cache.Valid() && kept in cache.entries && now < cache.entries[kept].entry.expiresAt
    requires key != "" && |entry.response| <= cache.maxBytes < |key| + |entry.response|
    modifies cache
    ensures before == Hit(old(cache.entries[kept].entry)) && error == Some(Unavailable) && after == Miss
  {
    before := cache.Get(false, kept, now);
    error := RefusedPut(cache, key, entry);
    after := cache.Get(false, kept, now);
  }

  method FourByteCache() returns (cache: MemoryCache)
    ensures fresh(cache) && cache.Valid() && cache.maxBytes == 4
    ensures "a" in cache.entries && cache.entries["a"].entry == CacheEntry([7], 0, 10)
  {
    cache := new MemoryCache(2, 4);
    var key, entry := "a", CacheEntry([7], 0, 10);
    assert |key| == 1 && |entry.response| == 1;
    var error := cache.Put(false, key, entry);
  }

  /** With room for four bytes: a one-byte response under the key a is stored and
      found, a four-byte response under b is refused, and a is gone. */
  method EmptyingPut() returns (before: Lookup, error: Option<Error>, after: Lookup)
    ensures before == Hit(CacheEntry([7], 0, 10)) && error == Some(Unavailable) && after == Miss
  {
    var cache := FourByteCache();
    before, error, after := LosingPut(cache, "a", "b", CacheEntry([1, 2, 3, 4], 0, 10), 1);
  }

}
