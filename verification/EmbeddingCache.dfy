/** The LRU cache of text embeddings and the embedder that uses it (memvid/src/text_embed.rs). */
module EmbeddingCache {
  import opened Basics
  import opened LittleEndian

  type Key = u64

  type Embedding = seq<real>

  // ---------- The recency order of a history of uses ----------

  /** `retain(|k| k != key)` */
  function Without(s: seq<Key>, key: Key): (r: seq<Key>)
    ensures forall k :: k in r <==> k in s && k != key
    ensures |r| <= |s|
  {
    if s == [] then []
    else if s[0] == key then Without(s[1..], key)
    else [s[0]] + Without(s[1..], key)
  }

  ghost predicate Distinct(s: seq<Key>) {
    s == [] || (s[0] !in s[1..] && Distinct(s[1..]))
  }

  /** The distinct keys of a history, most recently used first. */
  ghost function Recent(history: seq<Key>): (r: seq<Key>)
    ensures forall k :: k in r <==> k in history
  {
    if history == [] then []
    else
      var n := |history| - 1;
      assert history == history[..n] + [history[n]];
      [history[n]] + Without(Recent(history[..n]), history[n])
  }

  function First<T>(s: seq<T>, n: nat): (r: seq<T>) {
    if n < |s| then s[..n] else s
  }

  /** What a cache of this capacity holds after the history: capacity 0 still keeps one entry. */
  ghost function Kept(history: seq<Key>, capacity: nat): seq<Key> {
    First(Recent(history), Max(capacity, 1))
  }

  lemma {:induction false} WithoutAbsent(s: seq<Key>, key: Key)
    requires key !in s
    ensures Without(s, key) == s
  {
    if s != [] {
      WithoutAbsent(s[1..], key);
    }
  }

  lemma {:induction false} WithoutDistinct(s: seq<Key>, key: Key)
    requires Distinct(s)
    ensures Distinct(Without(s, key))
    ensures key in s ==> |Without(s, key)| == |s| - 1
  {
    if s != [] {
      var rest := Without(s[1..], key);
      WithoutDistinct(s[1..], key);
      if s[0] == key {
        WithoutAbsent(s[1..], key);
      } else {
        assert ([s[0]] + rest)[1..] == rest;
      }
    }
  }

  lemma {:induction false} WithoutConcat(a: seq<Key>, b: seq<Key>, key: Key)
    ensures Without(a + b, key) == Without(a, key) + Without(b, key)
  {
    if a == [] {
      assert a + b == b;
    } else {
      WithoutConcat(a[1..], b, key);
      WithoutCons(a[0], a[1..] + b, key);
      WithoutCons(a[0], a[1..], key);
      assert a + b == [a[0]] + (a[1..] + b) && a == [a[0]] + a[1..];
    }
  }

  lemma WithoutCons(k: Key, rest: seq<Key>, key: Key)
    ensures Without([k] + rest, key) == (if k == key then [] else [k]) + Without(rest, key)
  {
    assert ([k] + rest)[1..] == rest;
    assert [] + Without(rest, key) == Without(rest, key);
  }

  lemma {:induction false} DistinctParts(a: seq<Key>, b: seq<Key>)
    requires Distinct(a + b)
    ensures Distinct(a) && forall k :: k in a ==> k !in b
  {
    if a != [] {
      assert (a + b)[1..] == a[1..] + b;
      DistinctParts(a[1..], b);
    }
  }

  lemma {:induction false} RecentDistinct(history: seq<Key>)
    ensures Distinct(Recent(history))
  {
    if history != [] {
      var n := |history| - 1;
      RecentDistinct(history[..n]);
      WithoutDistinct(Recent(history[..n]), history[n]);
      assert Recent(history)[1..] == Without(Recent(history[..n]), history[n]);
    }
  }

  /** The position of the last use of a key. */
  ghost function LastUse(history: seq<Key>, key: Key): (i: nat)
    requires key in history
    ensures i < |history| && history[i] == key
    ensures forall j :: i < j < |history| ==> history[j] != key
  {
    var n := |history| - 1;
    if history[n] == key then n else LastUse(history[..n], key)
  }

  /** The keys stand strictly by their last use, latest first. */
  ghost predicate ByLastUse(history: seq<Key>, s: seq<Key>)
    requires forall k :: k in s ==> k in history
  {
    s == [] || (ByLastUse(history, s[1..]) && forall k :: k in s[1..] ==> LastUse(history, s[0]) > LastUse(history, k))
  }

  /** Removing the key just used keeps the others in order, also with respect to the longer history. */
  lemma {:induction false} WithoutKeepsOrder(s: seq<Key>, key: Key, history: seq<Key>)
    requires (forall k :: k in s ==> k in history) && ByLastUse(history, s)
    ensures (forall k :: k in Without(s, key) ==> k in history + [key]) && ByLastUse(history + [key], Without(s, key))
  {
    if s != [] {
      var rest := Without(s[1..], key);
      WithoutKeepsOrder(s[1..], key, history);
      if s[0] != key {
        assert ([s[0]] + rest)[1..] == rest;
        OtherUses(history, key, s[0]);
        forall k | k in rest ensures LastUse(history + [key], s[0]) > LastUse(history + [key], k) {
          OtherUses(history, key, k);
        }
      }
    }
  }

  lemma OtherUses(history: seq<Key>, key: Key, other: Key)
    requires other in history && other != key
    ensures LastUse(history + [key], other) == LastUse(history, other)
  {
    assert (history + [key])[..|history|] == history;
  }

  /** Recent lists the keys strictly by their last use, latest first. */
  lemma {:induction false} RecentByLastUse(history: seq<Key>)
    ensures ByLastUse(history, Recent(history))
  {
    if history != [] {
      var n := |history| - 1;
      var before, key := history[..n], history[n];
      assert history == before + [key];
      RecentByLastUse(before);
      WithoutKeepsOrder(Recent(before), key, before);
      var r := Without(Recent(before), key);
      assert Recent(history)[1..] == r;
      forall k | k in r ensures LastUse(history, k) < LastUse(history, key) {
        OtherUses(before, key, k);
      }
    }
  }

  /** The distinct keys used after the last use of this one. */
  ghost function UsedSince(history: seq<Key>, key: Key): set<Key>
    requires key in history
  {
    set i | LastUse(history, key) < i < |history| :: history[i]
  }

  lemma {:induction false} LastUsesDescend(history: seq<Key>, s: seq<Key>, i: nat, j: nat)
    requires (forall k :: k in s ==> k in history) && ByLastUse(history, s) && i < j < |s|
    ensures LastUse(history, s[i]) > LastUse(history, s[j])
  {
    if i == 0 {
      assert s[j] == s[1..][j - 1];
    } else {
      LastUsesDescend(history, s[1..], i - 1, j - 1);
    }
  }

  /** The keys before place i are those used since the last use of the key there, so there are i of them. */
  lemma UsedSinceIs(history: seq<Key>, i: nat)
    requires i < |Recent(history)|
    ensures |UsedSince(history, Recent(history)[i])| == i
  {
    hide Recent, LastUse;
    var s := Recent(history);
    RecentByLastUse(history);
    RecentDistinct(history);
    forall a, b | 0 <= a < b < |s| ensures LastUse(history, s[a]) > LastUse(history, s[b]) {
      LastUsesDescend(history, s, a, b);
    }
    var used := UsedSince(history, s[i]);
    forall k ensures k in used <==> k in s[..i] {
      if k in used {
        LastUseIsLater(history, k, s[i]);
        assert k in s;
        var j :| 0 <= j < |s| && s[j] == k;
      }
      if k in s[..i] {
        var j :| 0 <= j < i && s[j] == k;
        assert history[LastUse(history, k)] == k;
      }
    }
    assert s == s[..i] + s[i..];
    DistinctParts(s[..i], s[i..]);
    KeyCount(s[..i], used);
  }

  lemma LastUseIsLater(history: seq<Key>, k: Key, key: Key)
    requires key in history
    ensures k in UsedSince(history, key) ==> k in history && LastUse(history, k) > LastUse(history, key)
  {
  }

  /** What is kept, in terms of the uses: the keys since whose last use fewer than max(capacity, 1) others were used. */
  lemma KeptMeaning(history: seq<Key>, capacity: nat, key: Key)
    ensures key in Kept(history, capacity) <==> key in history && |UsedSince(history, key)| < Max(capacity, 1)
  {
    hide Recent, UsedSince;
    var s, c := Recent(history), Max(capacity, 1);
    RecentDistinct(history);
    if key in history {
      assert key in s;
      var i :| 0 <= i < |s| && s[i] == key;
      UsedSinceIs(history, i);
      OncePlaced(s, i, c);
    }
  }

  lemma {:induction false} OncePlaced(s: seq<Key>, i: nat, c: nat)
    requires Distinct(s) && i < |s|
    ensures s[i] in First(s, c) <==> i < c
  {
    if c < |s| {
      assert s == s[..c] + s[c..];
      DistinctParts(s[..c], s[c..]);
      assert i >= c ==> s[i] == s[c..][i - c];
      assert i < c ==> s[i] == s[..c][i];
    }
  }

  lemma {:induction false} KeyCount(s: seq<Key>, keys: set<Key>)
    requires Distinct(s) && forall k :: k in s <==> k in keys
    ensures |keys| == |s|
  {
    if s == [] {
      assert keys == {};
    } else {
      KeyCount(s[1..], keys - {s[0]});
    }
  }

  // ---------- The stack property ----------

  /** One use, as the cache performs it on a list of distinct keys with room for c: the used key moves or
      comes to the front; if it is new and the list is full, the last key leaves. */
  function Touch(kept: seq<Key>, key: Key, c: nat): seq<Key>
    requires c > 0
  {
    if key in kept then [key] + Without(kept, key)
    else [key] + (if |kept| >= c then kept[..|kept| - 1] else kept)
  }

  /** Using a key commutes with cutting the list off. */
  lemma TouchIsLocal(s: seq<Key>, key: Key, c: nat)
    requires Distinct(s) && c > 0
    ensures First([key] + Without(s, key), c) == Touch(First(s, c), key, c)
  {
    hide Without, Distinct;
    var kept := First(s, c);
    if |s| <= c {
      WithoutDistinct(s, key);
      if key !in s {
        WithoutAbsent(s, key);
      }
    } else {
      var tail := s[c..];
      assert s == kept + tail;
      DistinctParts(kept, tail);
      WithoutConcat(kept, tail, key);
      if key in kept {
        WithoutAbsent(tail, key);
        WithoutDistinct(kept, key);
      } else {
        WithoutAbsent(kept, key);
        assert ([key] + (kept + Without(tail, key)))[..c] == [key] + kept[..c - 1];
      }
    }
  }

  /** What the cache keeps after one more use, computed from what it kept. */
  lemma KeptStep(history: seq<Key>, key: Key, capacity: nat)
    ensures Kept(history + [key], capacity) == Touch(Kept(history, capacity), key, Max(capacity, 1))
  {
    var after := history + [key];
    assert after[..|after| - 1] == history;
    RecentDistinct(history);
    TouchIsLocal(Recent(history), key, Max(capacity, 1));
  }

  /** A larger cache holds everything a smaller one holds, in the same order. */
  lemma LargerCacheContainsSmaller(history: seq<Key>, smaller: nat, larger: nat)
    requires smaller <= larger
    ensures Kept(history, smaller) <= Kept(history, larger)
  {
  }

  /** How many uses of a run find their key kept from the uses before. */
  ghost function Hits(history: seq<Key>, capacity: nat): (h: nat)
    ensures h <= |history|
  {
    if history == [] then 0
    else
      var n := |history| - 1;
      Hits(history[..n], capacity) + if history[n] in Kept(history[..n], capacity) then 1 else 0
  }

  lemma HitsGrow(history: seq<Key>, key: Key, capacity: nat)
    ensures Hits(history + [key], capacity) == Hits(history, capacity) + if key in Kept(history, capacity) then 1 else 0
  {
    assert (history + [key])[..|history|] == history;
  }

  /** A larger cache never has fewer hits. */
  lemma {:induction false} LargerCacheHitsMore(history: seq<Key>, smaller: nat, larger: nat)
    requires smaller <= larger
    ensures Hits(history, smaller) <= Hits(history, larger)
  {
    if history != [] {
      var before := history[..|history| - 1];
      LargerCacheHitsMore(before, smaller, larger);
      LargerCacheContainsSmaller(before, smaller, larger);
    }
  }

  /** Among the kept keys there are no repetitions, and there are as many of them as were used, up to
      max(capacity, 1). So the capacity is exceeded EXACTLY when it is 0 and something was used. */
  lemma KeptIsBounded(history: seq<Key>, capacity: nat)
    ensures Distinct(Kept(history, capacity))
    ensures |Kept(history, capacity)| == Min(|Recent(history)|, Max(capacity, 1))
    ensures |Kept(history, capacity)| <= capacity <==> capacity > 0 || history == []
  {
    RecentDistinct(history);
    var s, c := Recent(history), Max(capacity, 1);
    assert history != [] ==> history[0] in s;
    if c < |s| {
      assert s == s[..c] + s[c..];
      DistinctParts(s[..c], s[c..]);
    }
  }

  // ---------- The cache ----------

  datatype CacheStats = CacheStats(hits: nat, misses: nat, size: nat, capacity: nat)

  class EmbeddingCache {
    var cache: map<Key, Embedding>
    var lruQueue: seq<Key>
    const capacity: nat
    var hits: nat
    var misses: nat
    /** Every use so far: the keys found by `Get` and the keys stored by `Insert`, in order. */
    ghost var uses: seq<Key>

    ghost predicate Valid()
      reads this
    {
      && lruQueue == Kept(uses, capacity)
      && forall k :: k in cache <==> k in lruQueue
    }

    constructor (capacity: nat)
      ensures Valid() && this.capacity == capacity && uses == [] && cache == map[] && hits == misses == 0
    {
      this.capacity := capacity;
      cache, lruQueue, hits, misses := map[], [], 0, 0;
      uses := [];
    }

    method Get(key: Key) returns (r: Option<Embedding>)
      requires Valid()
      modifies this
      ensures Valid() && cache == old(cache)
      ensures r == if key in cache then Some(cache[key]) else None
      ensures r.Some? ==> uses == old(uses) + [key] && hits == old(hits) + 1 && misses == old(misses)
      ensures r.None? ==> uses == old(uses) && hits == old(hits) && misses == old(misses) + 1
    {
      if key in cache {
        KeptStep(uses, key, capacity);
        lruQueue := Without(lruQueue, key);
        lruQueue := [key] + lruQueue;
        hits := hits + 1;
        uses := uses + [key];
        r := Some(cache[key]);
      } else {
        misses := misses + 1;
        r := None;
      }
    }

    method Insert(key: Key, value: Embedding)
      requires Valid()
      modifies this
      ensures Valid() && uses == old(uses) + [key]
      ensures key in cache && cache[key] == value
      ensures forall k :: k in cache && k != key ==> k in old(cache) && cache[k] == old(cache)[k]
      ensures hits == old(hits) && misses == old(misses)
    {
      KeptStep(uses, key, capacity);
      KeptIsBounded(uses, capacity);
      hide Kept, Distinct;
      uses := uses + [key];
      if key in cache {
        cache := cache[key := value];
        lruQueue := Without(lruQueue, key);
        lruQueue := [key] + lruQueue;
      } else {
        InsertNew(key, value);
      }
    }

    /** The part of `insert` for a key that is not in the cache. */
    method InsertNew(key: Key, value: Embedding)
      requires key !in cache && Distinct(lruQueue) && forall k :: k in cache <==> k in lruQueue
      modifies this`cache, this`lruQueue
      ensures lruQueue == Touch(old(lruQueue), key, Max(capacity, 1))
      ensures forall k :: k in cache <==> k in lruQueue
      ensures key in cache && cache[key] == value
      ensures forall k :: k in cache && k != key ==> k in old(cache) && cache[k] == old(cache)[k]
    {
      KeyCount(lruQueue, cache.Keys);
      if |cache| >= capacity && lruQueue != [] {
        var n := |lruQueue| - 1;
        var oldest := lruQueue[n];
        assert lruQueue == lruQueue[..n] + [oldest];
        DistinctParts(lruQueue[..n], [oldest]);
        lruQueue := lruQueue[..n];
        cache := cache - {oldest};
      }
      cache := cache[key := value];
      lruQueue := [key] + lruQueue;
    }

    method Clear()
      modifies this
      ensures Valid() && uses == [] && cache == map[] && hits == misses == 0
    {
      cache, lruQueue, hits, misses := map[], [], 0, 0;
      uses := [];
    }

    method Stats() returns (s: CacheStats)
      requires Valid()
      ensures s == CacheStats(hits, misses, |Kept(uses, capacity)|, capacity)
      ensures s.size <= Max(capacity, 1)
    {
      KeptIsBounded(uses, capacity);
      KeyCount(lruQueue, cache.Keys);
      s := CacheStats(hits, misses, |cache|, capacity);
    }
  }

  // ---------- The embedder ----------

  /** The embedder with its cache enabled. The model behind it and the 64-bit text hash are parameters. */
  class LocalTextEmbedder {
    const cache: EmbeddingCache
    const embed: string -> Option<Embedding>
    const cacheKey: string -> Key
    /** The texts encoded successfully since the cache was last cleared, and the number of failed calls. */
    ghost var encoded: seq<string>
    ghost var failures: nat

    ghost function Keys(texts: seq<string>): (ks: seq<Key>)
      ensures |ks| == |texts|
    {
      seq(|texts|, i requires 0 <= i < |texts| => cacheKey(texts[i]))
    }

    /** Some text already encoded has this key and this embedding. */
    ghost predicate ComesFrom(texts: seq<string>, key: Key, e: Embedding) {
      exists i :: 0 <= i < |texts| && cacheKey(texts[i]) == key && embed(texts[i]) == Some(e)
    }

    ghost predicate Valid()
      reads this, cache
    {
      && cache.Valid()
      && cache.uses == Keys(encoded)
      && cache.hits == Hits(cache.uses, cache.capacity)
      && cache.hits + cache.misses == |encoded| + failures
      && forall k :: k in cache.cache ==> ComesFrom(encoded, k, cache.cache[k])
    }

    constructor (capacity: nat, embed: string -> Option<Embedding>, cacheKey: string -> Key)
      ensures Valid() && encoded == [] && failures == 0 && fresh(cache)
      ensures cache.capacity == capacity && this.embed == embed && this.cacheKey == cacheKey
    {
      this.cache := new EmbeddingCache(capacity);
      this.embed := embed;
      this.cacheKey := cacheKey;
      encoded := [];
      failures := 0;
    }

    lemma KeysGrow(texts: seq<string>, text: string)
      ensures Keys(texts + [text]) == Keys(texts) + [cacheKey(text)]
    {
    }

    lemma SourcesGrow(texts: seq<string>, text: string, key: Key, e: Embedding)
      ensures ComesFrom(texts, key, e) ==> ComesFrom(texts + [text], key, e)
      ensures cacheKey(text) == key && embed(text) == Some(e) ==> ComesFrom(texts + [text], key, e)
    {
      var longer := texts + [text];
      assert longer[|texts|] == text;
      assert forall i :: 0 <= i < |texts| ==> longer[i] == texts[i];
    }

    /** No other text encoded so far has the key of this one. */
    ghost predicate IsAlone(texts: seq<string>, text: string) {
      forall i :: 0 <= i < |texts| ==> cacheKey(texts[i]) == cacheKey(text) ==> texts[i] == text
    }

    lemma OwnEmbedding(texts: seq<string>, text: string, e: Embedding)
      requires IsAlone(texts, text) && ComesFrom(texts, cacheKey(text), e)
      ensures embed(text) == Some(e)
    {
    }

    /** The call succeeds if its key is kept or the model succeeds, and then counts as the latest use. The
        result is the embedding of a text with the same key: of this very text, if no other text encoded
        so far collides with it. */
    method EncodeText(text: string) returns (r: Option<Embedding>)
      requires Valid()
      modifies this, cache
      ensures Valid()
      ensures r.Some? <==> cacheKey(text) in Kept(old(cache.uses), cache.capacity) || embed(text).Some?
      ensures r.Some? ==> encoded == old(encoded) + [text] && failures == old(failures)
      ensures r.None? ==> encoded == old(encoded) && failures == old(failures) + 1
      ensures r.Some? ==> ComesFrom(old(encoded) + [text], cacheKey(text), r.value)
      ensures IsAlone(old(encoded), text) ==> r == embed(text)
    {
      hide Kept, Hits, Keys, ComesFrom, IsAlone, Distinct;
      var key := cacheKey(text);
      KeysGrow(encoded, text);
      HitsGrow(cache.uses, key, cache.capacity);
      forall k, e ensures ComesFrom(encoded, k, e) ==> ComesFrom(encoded + [text], k, e) {
        SourcesGrow(encoded, text, k, e);
      }
      var cached := cache.Get(key);
      if cached.Some? {
        if IsAlone(encoded, text) {
          OwnEmbedding(encoded, text, cached.value);
        }
        encoded := encoded + [text];
        return cached;
      }
      var computed := embed(text);
      if computed.None? {
        failures := failures + 1;
        return None;
      }
      SourcesGrow(encoded, text, key, computed.value);
      cache.Insert(key, computed.value);
      encoded := encoded + [text];
      return computed;
    }

    method ClearCache()
      requires Valid()
      modifies this, cache
      ensures Valid() && encoded == [] && failures == 0
    {
      cache.Clear();
      encoded := [];
      failures := 0;
    }
  }
}
