// An LRU cache of decoded tiles keyed by tile id, with memory and count accounting.

module TileCaching {
  import opened FixedWidth
  import opened Wrappers

  // ---------------------------------------------------------------------------------
  // Cached tiles, configuration and counters
  // ---------------------------------------------------------------------------------

  /** sizeof(CachedTile): what the cache charges per entry on top of its data and id. */
  const EntryOverhead: nat := 96

  /** CachedTile, without its access timestamp. */
  datatype CachedTile = CachedTile(
    tileId: string, data: seq<bv8>, width: int, height: int, channels: int,
    sizeBytes: nat, isPureColor: bool, pureColorValue: u32)

  /** The CachedTile constructor: sizeBytes is the length of the data it takes over. */
  function NewCachedTile(id: string, data: seq<bv8>, w: int, h: int, c: int, isPure: bool, color: u32): (t: CachedTile)
    ensures t.tileId == id && t.data == data && t.sizeBytes == |data|
    ensures t.width == w && t.height == h && t.channels == c && t.isPureColor == isPure && t.pureColorValue == color
  {
    CachedTile(id, data, w, h, c, |data|, isPure, color)
  }

  /** A tile as put creates it: not pure-coloured, colour 0. */
  function DataTile(id: string, data: seq<bv8>, w: int, h: int, c: int): (t: CachedTile)
    ensures !t.isPureColor && t.pureColorValue == 0 && t.sizeBytes == |data|
  {
    NewCachedTile(id, data, w, h, c, false, 0)
  }

  /** A tile as putPureColor creates it: no data, 4 channels, the colour recorded. */
  function ColorTile(id: string, color: u32, w: int, h: int): (t: CachedTile)
    ensures t.isPureColor && t.pureColorValue == color && t.data == [] && t.sizeBytes == 0 && t.channels == 4
  {
    NewCachedTile(id, [], w, h, 4, true, color)
  }

  datatype Config = Config(maxMemoryBytes: nat, maxTileCount: nat, enableLRU: bool)

  const DefaultConfig := Config(512 * 1024 * 1024, 10000, true)

  datatype Statistics = Statistics(totalMemoryUsed: nat, totalTiles: nat, cacheHits: nat, cacheMisses: nat, evictedTiles: nat)

  const ZeroStatistics := Statistics(0, 0, 0, 0, 0)

  /** What one entry costs: its data, the fixed overhead and its id. */
  function Footprint(id: string, t: CachedTile): nat {
    t.sizeBytes + EntryOverhead + |id|
  }

  /** estimateTileSize(width, height, channels, tileId). */
  function EstimateTileSize(w: int, h: int, c: int, id: string): int {
    w * h * c + EntryOverhead + |id|
  }

  /** A tile whose data holds w*h*c bytes costs exactly the estimate. */
  lemma EstimateMatchesFootprint(id: string, data: seq<bv8>, w: int, h: int, c: int)
    requires |data| == w * h * c
    ensures Footprint(id, DataTile(id, data, w, h, c)) == EstimateTileSize(w, h, c, id)
  {
  }

  // ---------------------------------------------------------------------------------
  // Memory of a map of entries
  // ---------------------------------------------------------------------------------

  /** The memory the entries of m account for, the sum of their footprints. */
  ghost function MemoryOf(m: map<string, CachedTile>): nat
    decreases |m.Keys|
  {
    if m.Keys == {} then 0
    else
      var k :| k in m.Keys;
      assert |(m - {k}).Keys| < |m.Keys| by {
        assert (m - {k}).Keys == m.Keys - {k};
      }
      Footprint(k, m[k]) + MemoryOf(m - {k})
  }

  /** Taking any one entry out of m takes exactly its footprint out of the sum. */
  lemma {:induction false} MemoryRemove(m: map<string, CachedTile>, k: string)
    requires k in m
    ensures MemoryOf(m) == Footprint(k, m[k]) + MemoryOf(m - {k})
    decreases |m.Keys|
  {
    var j :| j in m.Keys && MemoryOf(m) == Footprint(j, m[j]) + MemoryOf(m - {j});
    if j != k {
      assert (m - {j}).Keys == m.Keys - {j} && (m - {k}).Keys == m.Keys - {k};
      MemoryRemove(m - {j}, k);
      MemoryRemove(m - {k}, j);
      assert m - {j} - {k} == m - {k} - {j};
    }
  }

  /** Adding a new entry adds exactly its footprint to the sum. */
  lemma MemoryAdd(m: map<string, CachedTile>, k: string, t: CachedTile)
    requires k !in m
    ensures MemoryOf(m[k := t]) == MemoryOf(m) + Footprint(k, t)
  {
    MemoryRemove(m[k := t], k);
    assert m[k := t] - {k} == m;
  }

  // ---------------------------------------------------------------------------------
  // The recency list
  // ---------------------------------------------------------------------------------

  predicate NoDup(s: seq<string>) {
    forall i, j :: 0 <= i < j < |s| ==> s[i] != s[j]
  }

  /** s with every occurrence of x erased, in order. */
  function Without(s: seq<string>, x: string): (r: seq<string>)
    ensures forall y :: y in r <==> y in s && y != x
    ensures x !in s ==> r == s
  {
    if s == [] then []
    else (if s[0] == x then [] else [s[0]]) + Without(s[1..], x)
  }

  /** The elements of s that lie in keep, in order. */
  function Keep(s: seq<string>, keep: set<string>): (r: seq<string>)
    ensures forall y :: y in r <==> y in s && y in keep
  {
    if s == [] then [] else (if s[0] in keep then [s[0]] else []) + Keep(s[1..], keep)
  }

  /** Erasing x from the kept elements keeps one element fewer. */
  lemma {:induction false} WithoutKeep(s: seq<string>, keep: set<string>, x: string)
    ensures Without(Keep(s, keep), x) == Keep(s, keep - {x})
    decreases |s|
  {
    if s != [] {
      WithoutKeep(s[1..], keep, x);
      var head := if s[0] in keep then [s[0]] else [];
      assert Keep(s, keep) == head + Keep(s[1..], keep);
      WithoutAppend(head, Keep(s[1..], keep), x);
    }
  }

  lemma {:induction false} WithoutAppend(a: seq<string>, b: seq<string>, x: string)
    ensures Without(a + b, x) == Without(a, x) + Without(b, x)
    decreases |a|
  {
    if a != [] {
      var head := if a[0] == x then [] else [a[0]];
      assert (a + b)[0] == a[0] && (a + b)[1..] == a[1..] + b;
      assert Without(a + b, x) == head + Without(a[1..] + b, x);
      WithoutAppend(a[1..], b, x);
      assert Without(a, x) == head + Without(a[1..], x);
    } else {
      assert a + b == b;
    }
  }

  /** Erasing an element keeps a list free of duplicates. */
  lemma {:induction false} WithoutNoDup(s: seq<string>, x: string)
    requires NoDup(s)
    ensures NoDup(Without(s, x))
    decreases |s|
  {
    if s != [] {
      assert NoDup(s[1..]) by {
        forall i, j | 0 <= i < j < |s[1..]|
          ensures s[1..][i] != s[1..][j]
        {
          assert s[1..][i] == s[i + 1] && s[1..][j] == s[j + 1];
        }
      }
      WithoutNoDup(s[1..], x);
      var t := Without(s[1..], x);
      if s[0] != x {
        assert s[0] !in s[1..];
        NoDupCons(s[0], t);
      }
    }
  }

  lemma NoDupCons(x: string, t: seq<string>)
    requires NoDup(t) && x !in t
    ensures NoDup([x] + t)
  {
    var u := [x] + t;
    forall i, j | 0 <= i < j < |u|
      ensures u[i] != u[j]
    {
      assert u[j] == t[j - 1];
      if i > 0 {
        assert u[i] == t[i - 1];
      }
    }
  }

  /** Keeping every element of s keeps s. */
  lemma {:induction false} KeepAll(s: seq<string>, keep: set<string>)
    requires forall y :: y in s ==> y in keep
    ensures Keep(s, keep) == s
    decreases |s|
  {
    if s != [] {
      KeepAll(s[1..], keep);
    }
  }

  /** Erasing an element that only occurs at the end drops it. */
  lemma WithoutLast(p: seq<string>, x: string)
    requires x !in p
    ensures Without(p + [x], x) == p
  {
    WithoutAppend(p, [x], x);
    assert Without([x], x) == [];
  }

  /** Each entry is filed under its own id and its size is the length of its data. */
  predicate Filed(m: map<string, CachedTile>) {
    forall id :: id in m ==> m[id].tileId == id && m[id].sizeBytes == |m[id].data|
  }

  /** Filing a new entry keeps the cache's bookkeeping consistent. */
  lemma AddKeeps(c: map<string, CachedTile>, l: seq<string>, id: string, t: CachedTile, lruOn: bool)
    requires id !in c && t.tileId == id && t.sizeBytes == |t.data|
    requires Filed(c)
    requires if lruOn then NoDup(l) && forall k :: k in l <==> k in c else l == []
    ensures MemoryOf(c[id := t]) == MemoryOf(c) + Footprint(id, t) && |c[id := t]| == |c| + 1
    ensures Filed(c[id := t])
    ensures var l' := if lruOn then [id] + l else l;
            if lruOn then NoDup(l') && forall k :: k in l' <==> k in c[id := t] else l' == []
  {
    MemoryAdd(c, id, t);
    if lruOn {
      NoDupCons(id, l);
    }
  }

  /**
   * From state (c0, l0, s0) to (c, l, s) entries were only evicted: the remaining ones are
   * unchanged, with LRU enabled the list is what was left at its front, hits and misses
   * are unchanged, and (with LRU enabled) each entry gone counts as an eviction.
   */
  ghost predicate Shrunk(c0: map<string, CachedTile>, l0: seq<string>, s0: Statistics,
                         c: map<string, CachedTile>, l: seq<string>, s: Statistics, lruOn: bool) {
    c.Keys <= c0.Keys && (forall id :: id in c ==> c[id] == c0[id]) && |c| <= |c0| &&
    (lruOn ==> |l| <= |l0| && l == l0[..|l|]) &&
    s.cacheHits == s0.cacheHits && s.cacheMisses == s0.cacheMisses &&
    s.evictedTiles == s0.evictedTiles + (if lruOn then |c0| - |c| else 0)
  }

  lemma ShrunkTrans(c0: map<string, CachedTile>, l0: seq<string>, s0: Statistics,
                    c1: map<string, CachedTile>, l1: seq<string>, s1: Statistics,
                    c: map<string, CachedTile>, l: seq<string>, s: Statistics, lruOn: bool)
    requires Shrunk(c0, l0, s0, c1, l1, s1, lruOn) && Shrunk(c1, l1, s1, c, l, s, lruOn)
    ensures Shrunk(c0, l0, s0, c, l, s, lruOn)
  {
  }

  /**
   * The condition the eviction loops of put, putPureColor and evictIfNeeded test: memory
   * plus the size about to be added exceeds the budget, or the count has reached the maximum.
   */
  predicate Crowded(cfg: Config, mem: nat, count: nat, size: nat) {
    mem + size > cfg.maxMemoryBytes || count >= cfg.maxTileCount
  }

  /**
   * An eviction loop that went from (c0, l0) to (c, l) stopped as soon as it could: if
   * anything was evicted, then with the last entry evicted put back the cache was still
   * crowded. With LRU enabled that entry is the one just behind the remaining list in l0.
   */
  ghost predicate StoppedWhenRoom(cfg: Config, c0: map<string, CachedTile>, l0: seq<string>,
                                  c: map<string, CachedTile>, l: seq<string>, size: nat) {
    |c| < |c0| ==>
      if cfg.enableLRU then
        |l| < |l0| && var e := l0[|l|];
        e in c0 && e !in c && Crowded(cfg, MemoryOf(c) + Footprint(e, c0[e]), |c| + 1, size)
      else
        exists e :: e in c0 && e !in c && Crowded(cfg, MemoryOf(c) + Footprint(e, c0[e]), |c| + 1, size)
  }

  /** With LRU enabled and a non-empty list l0, l is l0 without its last id e. */
  predicate TookOldest(lruOn: bool, l0: seq<string>, l: seq<string>, e: string) {
    lruOn && l0 != [] ==> e == l0[|l0| - 1] && l == l0[..|l0| - 1]
  }

  /** One eviction made while the cache was crowded: the entry evicted shows the loop had to go on. */
  lemma EvictionWasNeeded(cfg: Config, c0: map<string, CachedTile>, l0: seq<string>, s0: Statistics,
                          c1: map<string, CachedTile>, l1: seq<string>, s1: Statistics,
                          c: map<string, CachedTile>, l: seq<string>, e: string, size: nat)
    requires Shrunk(c0, l0, s0, c1, l1, s1, cfg.enableLRU)
    requires e in c1 && c == c1 - {e}
    requires Crowded(cfg, MemoryOf(c1), |c1|, size)
    requires cfg.enableLRU ==> l1 != []
    requires TookOldest(cfg.enableLRU, l1, l, e)
    ensures StoppedWhenRoom(cfg, c0, l0, c, l, size)
  {
    MemoryRemove(c1, e);
    assert c.Keys == c1.Keys - {e};
    assert c1[e] == c0[e];
    if cfg.enableLRU {
      assert l1[|l|] == l0[|l|];
    }
  }

  /** The entries of a part of m account for at most the memory of m. */
  lemma {:induction false} MemorySubset(sub: map<string, CachedTile>, m: map<string, CachedTile>)
    requires sub.Keys <= m.Keys && forall k :: k in sub ==> sub[k] == m[k]
    ensures MemoryOf(sub) <= MemoryOf(m)
    decreases |m.Keys|
  {
    if sub.Keys == m.Keys {
      assert sub == m;
    } else {
      var k :| k in m.Keys && k !in sub.Keys;
      assert (m - {k}).Keys == m.Keys - {k};
      MemoryRemove(m, k);
      MemorySubset(sub, m - {k});
    }
  }

  /** The entry StoppedWhenRoom speaks of, when something was evicted. */
  lemma LastEvicted(cfg: Config, c0: map<string, CachedTile>, l0: seq<string>,
                    c: map<string, CachedTile>, l: seq<string>, size: nat) returns (e: string)
    requires StoppedWhenRoom(cfg, c0, l0, c, l, size) && |c| < |c0|
    ensures e in c0 && e !in c && Crowded(cfg, MemoryOf(c) + Footprint(e, c0[e]), |c| + 1, size)
  {
    if cfg.enableLRU {
      e := l0[|l|];
    } else {
      e :| e in c0 && e !in c && Crowded(cfg, MemoryOf(c) + Footprint(e, c0[e]), |c| + 1, size);
    }
  }

  /** Putting an evicted entry back gives a part of the old map, no larger in memory or count. */
  lemma PutBackBounded(c0: map<string, CachedTile>, c: map<string, CachedTile>, e: string)
    requires c.Keys <= c0.Keys && (forall k :: k in c ==> c[k] == c0[k]) && e in c0 && e !in c
    ensures MemoryOf(c) + Footprint(e, c0[e]) <= MemoryOf(c0) && |c| + 1 <= |c0|
  {
    var back := c[e := c0[e]];
    MemoryAdd(c, e, c0[e]);
    MemorySubset(back, c0);
    SubsetCard(back.Keys, c0.Keys);
  }

  /** An eviction loop that starts with room for the new size evicts nothing. */
  lemma NoEvictionWithRoom(cfg: Config, c0: map<string, CachedTile>, l0: seq<string>, s0: Statistics,
                           c: map<string, CachedTile>, l: seq<string>, s: Statistics, size: nat)
    requires Shrunk(c0, l0, s0, c, l, s, cfg.enableLRU) && StoppedWhenRoom(cfg, c0, l0, c, l, size)
    requires !Crowded(cfg, MemoryOf(c0), |c0|, size)
    ensures c == c0 && s.evictedTiles == s0.evictedTiles
  {
    if |c| < |c0| {
      var e := LastEvicted(cfg, c0, l0, c, l, size);
      PutBackBounded(c0, c, e);
      assert false;
    }
    SubsetCard(c.Keys, c0.Keys);
    assert c.Keys == c0.Keys;
  }

  /** A subset is no larger, and equally large only when equal. */
  lemma {:induction false} SubsetCard(a: set<string>, b: set<string>)
    requires a <= b
    ensures |a| <= |b| && (|a| == |b| ==> a == b)
    decreases |b|
  {
    if a != b {
      var x :| x in b && x !in a;
      SubsetCard(a, b - {x});
    }
  }

  /** Two eviction loops in a row, the second for a size at least the first's, stop as the second does. */
  lemma StoppedCompose(cfg: Config, c1: map<string, CachedTile>, l1: seq<string>, s1: Statistics,
                       c2: map<string, CachedTile>, l2: seq<string>, s2: Statistics,
                       c: map<string, CachedTile>, l: seq<string>, s: Statistics, size1: nat, size: nat)
    requires size1 <= size
    requires Shrunk(c1, l1, s1, c2, l2, s2, cfg.enableLRU) && Shrunk(c2, l2, s2, c, l, s, cfg.enableLRU)
    requires StoppedWhenRoom(cfg, c1, l1, c2, l2, size1) && StoppedWhenRoom(cfg, c2, l2, c, l, size)
    requires |c| == |c2| ==> c == c2 && l == l2
    ensures StoppedWhenRoom(cfg, c1, l1, c, l, size)
  {
    if |c| < |c2| && cfg.enableLRU {
      assert l2[|l|] == l1[|l|];
    } else if |c| < |c2| {
      var e :| e in c2 && e !in c && Crowded(cfg, MemoryOf(c) + Footprint(e, c2[e]), |c| + 1, size);
      assert e in c1 && c1[e] == c2[e];
    }
  }

  /** The recency list behind its front entry. */
  function Behind(l: seq<string>): seq<string> {
    if l == [] then [] else l[1..]
  }

  /** The entries of m whose ids lie in keep. */
  function Restrict(m: map<string, CachedTile>, keep: set<string>): (r: map<string, CachedTile>)
    ensures r.Keys == m.Keys * keep && forall id :: id in r ==> r[id] == m[id]
  {
    map id | id in m && id in keep :: m[id]
  }

  /** One step of evictOutOfViewport: one more id gone from the map and from the list. */
  lemma EvictStep(c0: map<string, CachedTile>, l0: seq<string>, t0: set<string>, gone: set<string>, id: string)
    requires id in t0 - gone && gone <= t0
    ensures (t0 - gone) - {id} == t0 - (gone + {id}) && gone + {id} <= t0
    ensures Restrict(c0, c0.Keys - gone) - {id} == Restrict(c0, c0.Keys - (gone + {id}))
    ensures Without(Keep(l0, c0.Keys - gone), id) == Keep(l0, c0.Keys - (gone + {id}))
    ensures |gone + {id}| == |gone| + 1
  {
    WithoutKeep(l0, c0.Keys - gone, id);
    assert c0.Keys - gone - {id} == c0.Keys - (gone + {id});
  }

  /** What stays once every invisible id is gone: the visible entries. */
  lemma VisibleLeft(c0: map<string, CachedTile>, t0: set<string>, gone: set<string>, visible: seq<string>)
    requires t0 == c0.Keys - set id | id in visible
    requires gone <= t0 && t0 - gone == {}
    ensures gone == t0
    ensures c0.Keys - gone == Restrict(c0, set id | id in visible).Keys
    ensures Restrict(c0, c0.Keys - gone) == Restrict(c0, set id | id in visible)
  {
    forall x | x in t0
      ensures x in gone
    {
      assert x !in t0 - gone;
    }
  }

  // ---------------------------------------------------------------------------------
  // The cache
  // ---------------------------------------------------------------------------------

  /**
   * TileCache, single-threaded. cache holds the entries by id; lru holds the ids most
   * recent first (the position of an id in it plays the part of lruMap_); stats holds the
   * counters.
   */
  class TileCache {
    const config: Config
    var cache: map<string, CachedTile>
    var lru: seq<string>
    var stats: Statistics

    /**
     * The accounting invariant: the tile count is the number of entries, the memory is the
     * sum of their footprints, each entry is filed under its own id with sizeBytes the
     * length of its data, and with LRU enabled the list holds each cached id once and
     * nothing else (with LRU disabled it stays empty).
     */
    ghost predicate Valid()
      reads this
    {
      stats.totalTiles == |cache| && stats.totalMemoryUsed == MemoryOf(cache) &&
      Filed(cache) &&
      (if config.enableLRU then NoDup(lru) && forall id :: id in lru <==> id in cache else lru == [])
    }

    /** The counters put, get and the evictions leave to the other operations. */
    ghost predicate SameCounters(s: Statistics, t: Statistics) {
      s.cacheHits == t.cacheHits && s.cacheMisses == t.cacheMisses && s.evictedTiles == t.evictedTiles
    }

    constructor (config: Config)
      ensures this.config == config && cache == map[] && lru == [] && stats == ZeroStatistics && Valid()
    {
      this.config := config;
      cache := map[];
      lru := [];
      stats := ZeroStatistics;
    }

    /**
     * get: a hit counts a hit, moves the id to the front of the recency list when LRU is
     * enabled and returns the entry; a miss counts a miss and changes nothing else.
     */
    method Get(id: string) returns (r: Option<CachedTile>)
      requires Valid()
      modifies this
      ensures Valid() && cache == old(cache)
      ensures r == if id in old(cache) then Some(old(cache)[id]) else None
      ensures id in old(cache) ==> stats == old(stats).(cacheHits := old(stats).cacheHits + 1)
      ensures id !in old(cache) ==> stats == old(stats).(cacheMisses := old(stats).cacheMisses + 1) && lru == old(lru)
      ensures id in old(cache) && config.enableLRU ==> lru == [id] + Without(old(lru), id)
      ensures !config.enableLRU ==> lru == old(lru)
    {
      if id in cache {
        stats := stats.(cacheHits := stats.cacheHits + 1);
        if config.enableLRU {
          MoveToFront(id);
        }
        return Some(cache[id]);
      }
      stats := stats.(cacheMisses := stats.cacheMisses + 1);
      return None;
    }

    /** moveToFront: an id on the recency list goes to its front; any other id changes nothing. */
    method MoveToFront(id: string)
      requires Valid()
      modifies this
      ensures Valid() && cache == old(cache) && stats == old(stats)
      ensures lru == if id in old(lru) then [id] + Without(old(lru), id) else old(lru)
    {
      if id in lru {
        WithoutNoDup(lru, id);
        NoDupCons(id, Without(lru, id));
        lru := [id] + Without(lru, id);
      }
    }

    /**
     * removeTile: an entry that is present leaves the map and the recency list and its
     * footprint leaves the memory total, exactly what put charged for it; an absent id
     * changes nothing.
     */
    method RemoveTile(id: string)
      requires Valid()
      modifies this
      ensures Valid() && cache == old(cache) - {id} && lru == Without(old(lru), id)
      ensures SameCounters(stats, old(stats))
      ensures id in old(cache) ==>
        stats.totalMemoryUsed == old(stats.totalMemoryUsed) - Footprint(id, old(cache)[id]) &&
        stats.totalTiles == old(stats.totalTiles) - 1
      ensures id !in old(cache) ==> stats == old(stats)
    {
      if id in cache {
        MemoryRemove(cache, id);
        stats := stats.(totalMemoryUsed := stats.totalMemoryUsed - Footprint(id, cache[id]),
                        totalTiles := stats.totalTiles - 1);
        cache := cache - {id};
        if config.enableLRU {
          WithoutNoDup(lru, id);
        }
        lru := Without(lru, id);
      }
    }

    /** Counts one eviction. */
    method CountEviction()
      requires Valid()
      modifies this
      ensures Valid() && cache == old(cache) && lru == old(lru)
      ensures stats == old(stats).(evictedTiles := old(stats.evictedTiles) + 1)
    {
      stats := stats.(evictedTiles := stats.evictedTiles + 1);
    }

    /**
     * evictLRU: with a non-empty recency list the least recent id goes and counts as an
     * eviction; with an empty list (LRU disabled) some entry goes, uncounted.
     */
    method EvictLRU() returns (ghost gone: string)
      requires Valid()
      modifies this
      ensures Valid() && Shrunk(old(cache), old(lru), old(stats), cache, lru, stats, config.enableLRU)
      ensures |cache| == if old(cache) == map[] then 0 else |old(cache)| - 1
      ensures old(cache) != map[] ==> gone in old(cache) && cache == old(cache) - {gone}
      ensures TookOldest(config.enableLRU, old(lru), lru, gone)
    {
      gone := "";
      if lru == [] {
        if cache != map[] {
          var id :| id in cache;
          gone := id;
          RemoveTile(id);
        }
        return;
      }
      var oldest := lru[|lru| - 1];
      var front := lru[..|lru| - 1];
      assert lru == front + [oldest];
      assert oldest !in front by {
        forall k | 0 <= k < |front|
          ensures front[k] != oldest
        {
          assert front[k] == lru[k];
        }
      }
      WithoutLast(front, oldest);
      gone := oldest;
      RemoveTile(oldest);
      CountEviction();
    }

    /** One turn of the eviction loop: the cache is crowded, so its least recent entry goes. */
    method EvictOnce(ghost c0: map<string, CachedTile>, ghost l0: seq<string>, ghost s0: Statistics, size: nat)
      requires Valid() && Shrunk(c0, l0, s0, cache, lru, stats, config.enableLRU)
      requires Crowded(config, stats.totalMemoryUsed, stats.totalTiles, size) && cache != map[]
      modifies this
      ensures Valid() && Shrunk(c0, l0, s0, cache, lru, stats, config.enableLRU)
      ensures StoppedWhenRoom(config, c0, l0, cache, lru, size)
      ensures |cache| == |old(cache)| - 1
    {
      ghost var c1, l1, s1 := cache, lru, stats;
      assert config.enableLRU ==> l1 != [] by {
        if config.enableLRU {
          var k :| k in cache;
          assert k in lru;
        }
      }
      ghost var e := EvictLRU();
      EvictionWasNeeded(config, c0, l0, s0, c1, l1, s1, cache, lru, e, size);
      ShrunkTrans(c0, l0, s0, c1, l1, s1, cache, lru, stats, config.enableLRU);
    }

    /**
     * The eviction loop of evictIfNeeded (size 0) and of put (size the new tile's
     * footprint): entries go, least recent first, while the cache is crowded for size and
     * not empty. Afterwards the remaining entries are unchanged, with LRU enabled they are
     * the most recent ones, either the cache is empty or there is room, and the loop went
     * no further than it had to.
     */
    method EvictWhile(size: nat)
      requires Valid()
      modifies this
      ensures Valid() && Shrunk(old(cache), old(lru), old(stats), cache, lru, stats, config.enableLRU)
      ensures cache == map[] || !Crowded(config, stats.totalMemoryUsed, stats.totalTiles, size)
      ensures StoppedWhenRoom(config, old(cache), old(lru), cache, lru, size)
      ensures |cache| == |old(cache)| ==> cache == old(cache) && lru == old(lru) && stats == old(stats)
    {
      ghost var c0, l0, s0 := cache, lru, stats;
      while Crowded(config, stats.totalMemoryUsed, stats.totalTiles, size) && cache != map[]
        invariant Valid() && Shrunk(c0, l0, s0, cache, lru, stats, config.enableLRU)
        invariant StoppedWhenRoom(config, c0, l0, cache, lru, size)
        invariant |cache| == |c0| ==> cache == c0 && lru == l0 && stats == s0
        decreases |cache|
      {
        EvictOnce(c0, l0, s0, size);
      }
    }

    /** evictIfNeeded: evict until memory is within budget and the count below the maximum, or the cache is empty. */
    method EvictIfNeeded()
      requires Valid()
      modifies this
      ensures Valid() && Shrunk(old(cache), old(lru), old(stats), cache, lru, stats, config.enableLRU)
      ensures cache == map[] || (stats.totalMemoryUsed <= config.maxMemoryBytes && stats.totalTiles < config.maxTileCount)
      ensures StoppedWhenRoom(config, old(cache), old(lru), cache, lru, 0)
      ensures |cache| == |old(cache)| ==> cache == old(cache) && lru == old(lru) && stats == old(stats)
    {
      EvictWhile(0);
    }

    /** Files a new entry under id at the front of the recency list and charges its footprint. */
    method Add(id: string, t: CachedTile)
      requires Valid() && id !in cache && t.tileId == id && t.sizeBytes == |t.data|
      modifies this
      ensures Valid() && cache == old(cache)[id := t]
      ensures lru == if config.enableLRU then [id] + old(lru) else old(lru)
      ensures stats == old(stats).(totalMemoryUsed := old(stats.totalMemoryUsed) + Footprint(id, t),
                                   totalTiles := old(stats.totalTiles) + 1)
    {
      var lru' := if config.enableLRU then [id] + lru else lru;
      AddKeeps(cache, lru, id, t, config.enableLRU);
      cache := cache[id := t];
      stats := stats.(totalMemoryUsed := stats.totalMemoryUsed + Footprint(id, t), totalTiles := stats.totalTiles + 1);
      lru := lru';
    }

    /**
     * The first half of put and putPureColor: drop any old entry for id without counting an
     * eviction, then evict as evictIfNeeded does and again while the cache is crowded for
     * the new tile's size. From the cache without id, only least recent entries go, each
     * counted, and no more than needed.
     */
    method MakeRoom(id: string, size: nat)
      requires Valid()
      modifies this
      ensures Valid() && id !in cache
      ensures Shrunk(old(cache) - {id}, Without(old(lru), id), old(stats), cache, lru, stats, config.enableLRU)
      ensures StoppedWhenRoom(config, old(cache) - {id}, Without(old(lru), id), cache, lru, size)
      ensures cache == map[] || !Crowded(config, stats.totalMemoryUsed, stats.totalTiles, size)
    {
      RemoveTile(id);
      ghost var c1, l1, s1 := cache, lru, stats;
      EvictIfNeeded();
      ghost var c2, l2, s2 := cache, lru, stats;
      EvictWhile(size);
      ShrunkTrans(c1, l1, s1, c2, l2, s2, cache, lru, stats, config.enableLRU);
      StoppedCompose(config, c1, l1, s1, c2, l2, s2, cache, lru, stats, 0, size);
    }

    /**
     * The common part of put and putPureColor: make room, then file the new entry at the
     * front of the recency list. Behind it, the entries and the list are what evicting the
     * least recent entries of the cache without id left, stopping as soon as the tile fit.
     * Afterwards the count is within the maximum (when that is at least 1) and the memory
     * within budget unless the new tile alone exceeds it.
     */
    method PutTile(id: string, t: CachedTile)
      requires Valid() && t.tileId == id && t.sizeBytes == |t.data|
      modifies this
      ensures Valid() && id in cache && cache[id] == t
      ensures config.enableLRU ==> lru[0] == id
      ensures Shrunk(old(cache) - {id}, Without(old(lru), id), old(stats), cache - {id}, Behind(lru), stats, config.enableLRU)
      ensures StoppedWhenRoom(config, old(cache) - {id}, Without(old(lru), id), cache - {id}, Behind(lru), Footprint(id, t))
      ensures config.maxTileCount >= 1 ==> stats.totalTiles <= config.maxTileCount
      ensures Footprint(id, t) <= config.maxMemoryBytes ==> stats.totalMemoryUsed <= config.maxMemoryBytes
    {
      MakeRoom(id, Footprint(id, t));
      ghost var c2, l2 := cache, lru;
      Add(id, t);
      assert cache - {id} == c2;
      assert config.enableLRU ==> Behind(lru) == l2;
    }

    /**
     * put(tileId, data, width, height, channels): the data tile is filed under id at the
     * front; the rest is as PutTile describes.
     */
    method Put(id: string, data: seq<bv8>, w: int, h: int, c: int)
      requires Valid()
      modifies this
      ensures Valid() && id in cache && cache[id] == DataTile(id, data, w, h, c)
      ensures config.enableLRU ==> lru[0] == id
      ensures Shrunk(old(cache) - {id}, Without(old(lru), id), old(stats), cache - {id}, Behind(lru), stats, config.enableLRU)
      ensures StoppedWhenRoom(config, old(cache) - {id}, Without(old(lru), id), cache - {id}, Behind(lru),
                              Footprint(id, DataTile(id, data, w, h, c)))
      ensures config.maxTileCount >= 1 ==> stats.totalTiles <= config.maxTileCount
      ensures EstimateTileSize(w, h, c, id) <= config.maxMemoryBytes && |data| == w * h * c ==>
        stats.totalMemoryUsed <= config.maxMemoryBytes
    {
      PutTile(id, DataTile(id, data, w, h, c));
    }

    /** putPureColor(tileId, color, width, height): an entry with no data, charged only its overhead and id. */
    method PutPureColor(id: string, color: u32, w: int, h: int)
      requires Valid()
      modifies this
      ensures Valid() && id in cache && cache[id] == ColorTile(id, color, w, h)
      ensures config.enableLRU ==> lru[0] == id
      ensures Shrunk(old(cache) - {id}, Without(old(lru), id), old(stats), cache - {id}, Behind(lru), stats, config.enableLRU)
      ensures StoppedWhenRoom(config, old(cache) - {id}, Without(old(lru), id), cache - {id}, Behind(lru),
                              EntryOverhead + |id|)
      ensures config.maxTileCount >= 1 ==> stats.totalTiles <= config.maxTileCount
      ensures EntryOverhead + |id| <= config.maxMemoryBytes ==> stats.totalMemoryUsed <= config.maxMemoryBytes
    {
      PutTile(id, ColorTile(id, color, w, h));
    }

    /**
     * evictOutOfViewport(visibleTileIds): exactly the entries whose id is not visible go,
     * each counted as an eviction; visible entries stay as they were and the recency list
     * keeps its order.
     */
    method EvictOutOfViewport(visible: seq<string>)
      requires Valid()
      modifies this
      ensures Valid() && cache == Restrict(old(cache), set id | id in visible)
      ensures lru == Keep(old(lru), cache.Keys)
      ensures stats.cacheHits == old(stats.cacheHits) && stats.cacheMisses == old(stats.cacheMisses)
      ensures stats.evictedTiles == old(stats.evictedTiles) + |old(cache).Keys - set id | id in visible|
    {
      ghost var c0, l0, s0 := cache, lru, stats;
      var toEvict := cache.Keys - set id | id in visible;
      ghost var t0 := toEvict;
      ghost var gone: set<string> := {};
      KeepAll(lru, cache.Keys);
      assert c0.Keys - gone == c0.Keys;
      assert Restrict(c0, c0.Keys) == c0;
      while toEvict != {}
        invariant Valid() && gone <= t0 && toEvict == t0 - gone
        invariant cache == Restrict(c0, c0.Keys - gone) && lru == Keep(l0, c0.Keys - gone)
        invariant stats.cacheHits == s0.cacheHits && stats.cacheMisses == s0.cacheMisses
        invariant stats.evictedTiles == s0.evictedTiles + |gone|
        decreases |toEvict|
      {
        var id :| id in toEvict;
        EvictStep(c0, l0, t0, gone, id);
        RemoveTile(id);
        CountEviction();
        toEvict := toEvict - {id};
        gone := gone + {id};
      }
      VisibleLeft(c0, t0, gone, visible);
    }

    /** clear: no entries, an empty recency list, zero memory and count; hits, misses and evictions stay. */
    method Clear()
      modifies this
      ensures Valid() && cache == map[] && lru == []
      ensures stats == old(stats).(totalMemoryUsed := 0, totalTiles := 0)
    {
      cache := map[];
      lru := [];
      stats := stats.(totalMemoryUsed := 0, totalTiles := 0);
    }

    /** getStatistics. */
    method GetStatistics() returns (s: Statistics)
      ensures s == stats
    {
      s := stats;
    }

    /** getMemoryUsage: the sum of the entries' footprints. */
    method GetMemoryUsage() returns (m: nat)
      requires Valid()
      ensures m == MemoryOf(cache)
    {
      m := stats.totalMemoryUsed;
    }

    /** getTileCount: the number of entries. */
    method GetTileCount() returns (n: nat)
      requires Valid()
      ensures n == |cache|
    {
      n := stats.totalTiles;
    }
  }
}
