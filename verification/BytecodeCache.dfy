/** The bytecode cache: chains of entries in hash buckets, with eviction of the oldest. */
module BytecodeCache {
  import opened LruSpec

  const INT64_MAX := 0x7fff_ffff_ffff_ffff

  /** hash_string, with its 32-bit wrap-around. */
  function HashFrom(s: string, h: nat): (r: nat)
    requires h < 0x1_0000_0000
    ensures r < 0x1_0000_0000
  {
    if s == [] then h else HashFrom(s[1..], (h * 33 + (s[0] as int) % 256) % 0x1_0000_0000)
  }

  function Bucket(key: string, count: nat): (b: nat)
    requires count > 0
    ensures b < count
  {
    HashFrom(key, 5381) % count
  }

  /** The chains hold exactly the listed entries, each in the bucket of its key. */
  ghost predicate Stored(chains: seq<seq<Entry>>, list: seq<Entry>) {
    && |chains| > 0 && Keyed(list)
    && (forall b :: 0 <= b < |chains| ==> Keyed(chains[b]))
    && (forall b, e :: 0 <= b < |chains| && e in chains[b] ==> Bucket(e.key, |chains|) == b && e in list)
    && (forall e :: e in list ==> e in chains[Bucket(e.key, |chains|)])
  }

  /** A chain, its position replaced, with the list changed to match. */
  lemma TouchStored(chains: seq<seq<Entry>>, list: seq<Entry>, key: string, i: nat, now: int)
    requires Stored(chains, list)
    requires var b := Bucket(key, |chains|); i < |chains[b]| && chains[b][i].key == key
    ensures Has(list, key) && Get(list, key) == chains[Bucket(key, |chains|)][i]
    ensures var b := Bucket(key, |chains|);
            Stored(chains[b := chains[b][i := chains[b][i].(lastAccess := now)]], Touch(list, key, now))
    ensures |Touch(list, key, now)| == |list|
  {
    var b := Bucket(key, |chains|);
    var e := chains[b][i];
    assert e in list;
    OneEntry(list, key, e);
    WithoutKeyed(list, key);
    var touched := e.(lastAccess := now);
    var next := Touch(list, key, now);
    forall x ensures x in next <==> x == touched || (x in list && x.key != key) { WithoutMembers(list, key, x); }
    hide Touch, Get, Has, Without, Bucket;
    ReplaceStored(chains, list, next, b, i, touched);
  }

  lemma ReplaceStored(chains: seq<seq<Entry>>, list: seq<Entry>, next: seq<Entry>, b: nat, i: nat, touched: Entry)
    requires Stored(chains, list) && Keyed(next) && b == Bucket(touched.key, |chains|)
    requires i < |chains[b]| && chains[b][i].key == touched.key
    requires forall x :: x in next <==> x == touched || (x in list && x.key != touched.key)
    ensures Stored(chains[b := chains[b][i := touched]], next)
  {
    hide Bucket;
    var stored := chains[b := chains[b][i := touched]];
    forall x ensures x in stored[b] <==> x == touched || (x in chains[b] && x.key != touched.key) {
      ReplacedMembers(chains[b], i, touched, x);
    }
    forall x | x in next ensures x in stored[Bucket(x.key, |stored|)] {}
  }

  lemma ReplacedMembers(chain: seq<Entry>, i: nat, e: Entry, x: Entry)
    requires Keyed(chain) && i < |chain| && e.key == chain[i].key
    ensures Keyed(chain[i := e])
    ensures x in chain[i := e] <==> x == e || (x in chain && x.key != e.key)
  {
    var next := chain[i := e];
    if x in chain && x.key != e.key {
      var j :| 0 <= j < |chain| && chain[j] == x;
      assert next[j] == x;
    }
    assert next[i] == e;
  }

  lemma OneEntry(list: seq<Entry>, key: string, e: Entry)
    requires Keyed(list) && e in list && e.key == key
    ensures Has(list, key) && Get(list, key) == e
  {
    var i :| 0 <= i < |list| && list[i] == e;
    assert list[i].key == key;
  }

  lemma AbsentEverywhere(chains: seq<seq<Entry>>, list: seq<Entry>, key: string)
    requires Stored(chains, list)
    requires forall i :: 0 <= i < |chains[Bucket(key, |chains|)]| ==> chains[Bucket(key, |chains|)][i].key != key
    ensures !Has(list, key)
  {
    forall i | 0 <= i < |list| ensures list[i].key != key {
      assert list[i] in list;
      assert list[i] in chains[Bucket(list[i].key, |chains|)];
    }
  }

  lemma AddStored(chains: seq<seq<Entry>>, list: seq<Entry>, e: Entry)
    requires Stored(chains, list) && !Has(list, e.key)
    ensures var b := Bucket(e.key, |chains|); Stored(chains[b := [e] + chains[b]], [e] + list)
  {
    var b := Bucket(e.key, |chains|);
    forall x | x in list ensures x.key != e.key {}
    forall x | x in chains[b] ensures x.key != e.key { assert x in list; }
    var stored := chains[b := [e] + chains[b]];
    forall x | x in [e] + list ensures x in stored[Bucket(x.key, |stored|)] {}
  }

  /** Unlinking the entry at position i of bucket b. */
  lemma UnlinkStored(chains: seq<seq<Entry>>, list: seq<Entry>, b: nat, i: nat)
    requires Stored(chains, list) && b < |chains| && i < |chains[b]|
    ensures Has(list, chains[b][i].key)
    ensures Stored(chains[b := chains[b][..i] + chains[b][i + 1..]], Without(list, chains[b][i].key))
    ensures |Without(list, chains[b][i].key)| == |list| - 1
  {
    var e, chain := chains[b][i], chains[b];
    assert e in list;
    OneEntry(list, e.key, e);
    WithoutKeyed(list, e.key);
    var rest := Without(list, e.key);
    var cut := chain[..i] + chain[i + 1..];
    var stored := chains[b := cut];
    forall x ensures x in rest <==> x in list && x.key != e.key { WithoutMembers(list, e.key, x); }
    forall x ensures x in cut <==> x in chain && x.key != e.key { CutMembers(chain, i, x); }
    forall x | x in rest ensures x in stored[Bucket(x.key, |stored|)] {}
    CutMembers(chain, i, e);
  }

  lemma CutMembers(chain: seq<Entry>, i: nat, x: Entry)
    requires Keyed(chain) && i < |chain|
    ensures var cut := chain[..i] + chain[i + 1..]; Keyed(cut) && (x in cut <==> x in chain && x.key != chain[i].key)
  {
    var cut := chain[..i] + chain[i + 1..];
    assert forall j :: 0 <= j < |cut| ==> cut[j] == chain[if j < i then j else j + 1];
    if x in chain && x.key != chain[i].key {
      var j :| 0 <= j < |chain| && chain[j] == x;
      assert cut[if j < i then j else j - 1] == x;
    }
  }

  // ---- Times

  ghost predicate NewestFirst(list: seq<Entry>) {
    forall i, j :: 0 <= i < j < |list| ==> list[i].lastAccess > list[j].lastAccess
  }

  ghost predicate Before(list: seq<Entry>, now: int) {
    forall e :: e in list ==> e.lastAccess < now
  }

  ghost predicate Oldest(list: seq<Entry>, e: Entry) {
    e in list && forall x :: x in list ==> e.lastAccess <= x.lastAccess
  }

  /** In a list ordered by time the oldest entry is the last. */
  lemma OldestIsLast(list: seq<Entry>, e: Entry)
    requires NewestFirst(list) && Oldest(list, e)
    ensures e == list[|list| - 1]
  {
    assert list[|list| - 1] in list;
  }

  lemma TouchBefore(list: seq<Entry>, key: string, now: int, limit: int)
    requires Keyed(list) && Has(list, key) && Before(list, limit) && now < limit
    ensures Before(Touch(list, key, now), limit)
  {
    forall e | e in Touch(list, key, now) ensures e.lastAccess < limit { WithoutMembers(list, key, e); }
  }

  lemma WithoutBefore(list: seq<Entry>, key: string, limit: int)
    requires Keyed(list) && Before(list, limit)
    ensures Before(Without(list, key), limit)
  {
    forall e | e in Without(list, key) ensures e.lastAccess < limit { WithoutMembers(list, key, e); }
  }

  /** No entry of the first i chains, nor of the first j places of the next, is older than time. */
  ghost predicate Scanned(chains: seq<seq<Entry>>, i: nat, j: nat, time: int) {
    && i <= |chains| && (j > 0 ==> i < |chains| && j <= |chains[i]|)
    && (forall b, k :: 0 <= b < i && 0 <= k < |chains[b]| ==> time <= chains[b][k].lastAccess)
    && (forall k :: 0 <= k < j ==> time <= chains[i][k].lastAccess)
  }

  lemma ScannedAll(chains: seq<seq<Entry>>, list: seq<Entry>, b: nat, i: nat)
    requires Stored(chains, list) && b < |chains| && i < |chains[b]|
    requires Scanned(chains, |chains|, 0, chains[b][i].lastAccess)
    ensures Oldest(list, chains[b][i])
  {
    assert chains[b][i] in list;
    forall e | e in list ensures chains[b][i].lastAccess <= e.lastAccess {
      var c := Bucket(e.key, |chains|);
      var k :| 0 <= k < |chains[c]| && chains[c][k] == e;
    }
  }

  lemma SomeEntryScanned(chains: seq<seq<Entry>>, list: seq<Entry>)
    requires Stored(chains, list) && list != [] && Before(list, INT64_MAX)
    ensures !Scanned(chains, |chains|, 0, INT64_MAX)
  {
    var e := list[0];
    assert e in list;
    var b := Bucket(e.key, |chains|);
    var k :| 0 <= k < |chains[b]| && chains[b][k] == e;
    assert chains[b][k].lastAccess < INT64_MAX;
  }

  class Cache {
    const buckets: array<seq<Entry>>
    const maxEntries: nat
    var entryCount: nat
    ghost var list: seq<Entry>

    ghost predicate Valid()
      reads this, buckets
    {
      && buckets.Length > 0 && maxEntries > 0
      && Stored(buckets[..], list) && entryCount == |list| <= maxEntries && Before(list, INT64_MAX)
    }

    constructor (max: nat)
      requires max > 0
      ensures Valid() && list == [] && maxEntries == max && fresh(buckets)
    {
      maxEntries := max;
      buckets := new seq<Entry>[if 2 * max < 64 then 64 else 2 * max](_ => []);
      entryCount := 0;
      list := [];
    }

    /** The position of a key in its chain, or the length of the chain. */
    method FindInChain(chain: seq<Entry>, key: string) returns (i: nat)
      ensures i <= |chain| && (i < |chain| ==> chain[i].key == key)
      ensures forall j :: 0 <= j < i ==> chain[j].key != key
    {
      i := 0;
      while i < |chain| && chain[i].key != key
        invariant i <= |chain| && forall j :: 0 <= j < i ==> chain[j].key != key
      {
        i := i + 1;
      }
    }

    /** bc_lookup. */
    method Find(key: string, now: int) returns (found: bool, code: Code)
      requires Valid() && now < INT64_MAX
      modifies this`list, buckets
      ensures Valid() && list == Lookup(old(list), key, now)
      ensures found <==> Has(old(list), key)
      ensures found ==> code == Get(old(list), key).code
    {
      hide Stored;
      var b := Bucket(key, buckets.Length);
      var chain := buckets[b];
      var i := FindInChain(chain, key);
      found, code := i < |chain|, [];
      if found {
        code := chain[i].code;
        StoredKeyed(buckets[..], list);
        TouchStored(buckets[..], list, key, i, now);
        TouchBefore(list, key, now, INT64_MAX);
        buckets[b] := chain[i := chain[i].(lastAccess := now)];
        list := Touch(list, key, now);
        assert buckets[..] == old(buckets[..])[b := buckets[b]];
      } else {
        AbsentEverywhere(buckets[..], list, key);
      }
    }

    /** The scan of bc_evict_lru over every chain. */
    method FindOldest() returns (b: nat, i: nat)
      requires Valid() && list != []
      ensures b < buckets.Length && i < |buckets[b]| && Oldest(list, buckets[b][i])
    {
      hide Stored, Scanned;
      ghost var chains := buckets[..];
      var time, found := INT64_MAX, false;
      b, i := 0, 0;
      ScanStart(chains);
      for c := 0 to buckets.Length
        invariant Scanned(chains, c, 0, time) && (!found ==> time == INT64_MAX)
        invariant found ==> b < buckets.Length && i < |buckets[b]| && buckets[b][i].lastAccess == time
      {
        var j := 0;
        while j < |buckets[c]|
          invariant j <= |buckets[c]| && Scanned(chains, c, j, time) && (!found ==> time == INT64_MAX)
          invariant found ==> b < buckets.Length && i < |buckets[b]| && buckets[b][i].lastAccess == time
        {
          ScanNext(chains, c, j, time);
          if buckets[c][j].lastAccess < time {
            time, b, i, found := buckets[c][j].lastAccess, c, j, true;
          }
          j := j + 1;
        }
        ScanChain(chains, c, time);
      }
      SomeEntryScanned(chains, list);
      ScannedAll(chains, list, b, i);
    }

    /** bc_evict_lru: an entry that none is older than is removed. */
    method Evict() returns (ghost victim: Entry)
      requires Valid() && list != []
      modifies this, buckets
      ensures Valid() && Oldest(old(list), victim)
      ensures list == Without(old(list), victim.key) && |list| == |old(list)| - 1
      ensures forall key :: !Has(old(list), key) ==> !Has(list, key)
    {
      hide Stored;
      var b, i := FindOldest();
      victim := buckets[b][i];
      UnlinkStored(buckets[..], list, b, i);
      StoredKeyed(buckets[..], list);
      WithoutBefore(list, victim.key, INT64_MAX);
      AbsentStays(list, victim.key);
      buckets[b] := buckets[b][..i] + buckets[b][i + 1..];
      assert buckets[..] == old(buckets[..])[b := buckets[b]];
      list := Without(list, victim.key);
      entryCount := entryCount - 1;
    }

    /** bc_insert, for any clock. */
    method Put(key: string, code: Code, now: int) returns (ghost victim: Entry)
      requires Valid() && now < INT64_MAX
      modifies this, buckets
      ensures Valid()
      ensures Has(old(list), key) ==> list == Touch(old(list), key, now)
      ensures !Has(old(list), key) && |old(list)| < maxEntries ==> list == [Entry(key, code, now)] + old(list)
      ensures !Has(old(list), key) && |old(list)| == maxEntries ==>
                Oldest(old(list), victim) && list == [Entry(key, code, now)] + Without(old(list), victim.key)
    {
      hide Stored, Touch, Without, Get;
      victim := Entry(key, code, now);
      var b := Bucket(key, buckets.Length);
      var i := FindInChain(buckets[b], key);
      StoredKeyed(buckets[..], list);
      if i < |buckets[b]| {
        TouchStored(buckets[..], list, key, i, now);
        TouchBefore(list, key, now, INT64_MAX);
        buckets[b] := buckets[b][i := buckets[b][i].(lastAccess := now)];
        assert buckets[..] == old(buckets[..])[b := buckets[b]];
        list := Touch(list, key, now);
        return;
      }
      AbsentEverywhere(buckets[..], list, key);
      if entryCount >= maxEntries { victim := Evict(); }
      var entry := Entry(key, code, now);
      AddStored(buckets[..], list, entry);
      ghost var chains := buckets[..];
      buckets[b] := [entry] + buckets[b];
      assert buckets[..] == chains[b := buckets[b]];
      list := [entry] + list;
      entryCount := entryCount + 1;
    }
  }

  lemma StoredKeyed(chains: seq<seq<Entry>>, list: seq<Entry>)
    requires Stored(chains, list)
    ensures Keyed(list)
  {
  }

  lemma AbsentStays(list: seq<Entry>, gone: string)
    requires Keyed(list)
    ensures forall key :: !Has(list, key) ==> !Has(Without(list, gone), key)
  {
    forall key | !Has(list, key) ensures !Has(Without(list, gone), key) {
      forall i | 0 <= i < |Without(list, gone)| ensures Without(list, gone)[i].key != key {
        WithoutMembers(list, gone, Without(list, gone)[i]);
      }
    }
  }

  lemma ScanStart(chains: seq<seq<Entry>>)
    ensures Scanned(chains, 0, 0, INT64_MAX)
  {
  }

  lemma ScanNext(chains: seq<seq<Entry>>, c: nat, j: nat, time: int)
    requires c < |chains| && j < |chains[c]| && Scanned(chains, c, j, time)
    ensures Scanned(chains, c, j + 1, if chains[c][j].lastAccess < time then chains[c][j].lastAccess else time)
  {
  }

  lemma ScanChain(chains: seq<seq<Entry>>, c: nat, time: int)
    requires c < |chains| && Scanned(chains, c, |chains[c]|, time)
    ensures Scanned(chains, c + 1, 0, time)
  {
  }

  /**
   * With clock readings that strictly increase, an insertion is that of a least-recently-used list:
   * the entry evicted is the last.
   */
  lemma PutIsLru(list: seq<Entry>, max: nat, key: string, code: Code, now: int, victim: Entry, next: seq<Entry>)
    requires Keyed(list) && NewestFirst(list) && Before(list, now) && |list| <= max && max > 0
    requires Has(list, key) ==> next == Touch(list, key, now)
    requires !Has(list, key) && |list| < max ==> next == [Entry(key, code, now)] + list
    requires !Has(list, key) && |list| == max ==>
               Oldest(list, victim) && next == [Entry(key, code, now)] + Without(list, victim.key)
    ensures next == Insert(list, max, key, code, now) && NewestFirst(next)
  {
    if Has(list, key) {
      TouchNewestFirst(list, key, now);
    } else {
      hide Without, Has, NewestFirst, Keyed;
      if |list| == max {
        OldestIsLast(list, victim);
        WithoutLast(list);
        NewestAdded(Entry(key, code, now), list, |list| - 1);
      } else {
        NewestAdded(Entry(key, code, now), list, |list|);
        assert list[..|list|] == list;
      }
    }
  }

  lemma NewestAdded(e: Entry, list: seq<Entry>, n: nat)
    requires NewestFirst(list) && Before(list, e.lastAccess) && n <= |list|
    ensures NewestFirst([e] + list[..n])
  {
  }

  lemma {:induction false} WithoutNewestFirst(list: seq<Entry>, key: string)
    requires Keyed(list) && NewestFirst(list)
    ensures NewestFirst(Without(list, key))
  {
    if list != [] {
      WithoutNewestFirst(list[1..], key);
      forall e | e in Without(list[1..], key) ensures e.lastAccess < list[0].lastAccess {
        WithoutMembers(list[1..], key, e);
      }
    }
  }

  lemma TouchNewestFirst(list: seq<Entry>, key: string, now: int)
    requires Keyed(list) && NewestFirst(list) && Before(list, now) && Has(list, key)
    ensures NewestFirst(Touch(list, key, now))
  {
    WithoutNewestFirst(list, key);
    forall e | e in Without(list, key) ensures e.lastAccess < now { WithoutMembers(list, key, e); }
  }

  // ---- Whole histories

  /** Clock readings that strictly increase. */
  ghost predicate Ticking(accesses: seq<Access>) {
    && (forall i, j :: 0 <= i < j < |accesses| ==> accesses[i].now < accesses[j].now)
    && (forall i :: 0 <= i < |accesses| ==> accesses[i].now < INT64_MAX)
  }

  /** The list is that of the history so far, in order of time and before the next reading. */
  ghost predicate UpToDate(list: seq<Entry>, accesses: seq<Access>, i: nat, max: nat) {
    && i <= |accesses| && list == After(accesses[..i], max) && NewestFirst(list)
    && (i < |accesses| ==> Before(list, accesses[i].now))
  }

  lemma LookKeeps(list: seq<Entry>, accesses: seq<Access>, i: nat, max: nat)
    requires Ticking(accesses) && i < |accesses| && accesses[i].Look? && UpToDate(list, accesses, i, max) && Keyed(list)
    ensures UpToDate(Lookup(list, accesses[i].key, accesses[i].now), accesses, i + 1, max)
  {
    var a := accesses[i];
    assert accesses[..i + 1][..i] == accesses[..i];
    if Has(list, a.key) {
      TouchNewestFirst(list, a.key, a.now);
      if i + 1 < |accesses| { TouchBefore(list, a.key, a.now, accesses[i + 1].now); }
    }
  }

  lemma AddKeeps(list: seq<Entry>, accesses: seq<Access>, i: nat, max: nat)
    requires Ticking(accesses) && i < |accesses| && accesses[i].Add? && UpToDate(list, accesses, i, max) && Keyed(list)
    requires var a := accesses[i]; NewestFirst(Insert(list, max, a.key, a.code, a.now))
    ensures UpToDate(Insert(list, max, accesses[i].key, accesses[i].code, accesses[i].now), accesses, i + 1, max)
  {
    var a := accesses[i];
    assert accesses[..i + 1][..i] == accesses[..i];
    if Has(list, a.key) {
      if i + 1 < |accesses| { TouchBefore(list, a.key, a.now, accesses[i + 1].now); }
    }
  }

  /**
   * A cache that is used with strictly increasing clock readings is a least-recently-used list: it holds
   * exactly the most recently touched keys, as many as there is room for, each with the code of the
   * insertion that began its present stay.
   */
  method Replay(accesses: seq<Access>, max: nat) returns (c: Cache)
    requires max > 0 && Ticking(accesses)
    ensures fresh(c) && c.Valid() && c.maxEntries == max && c.list == After(accesses, max)
    ensures HoldsNewest(c.list, max, Touches(accesses, max))
    ensures forall e :: e in c.list ==> e.code == Started(accesses, max, e.key)
  {
    hide UpToDate, Lookup, Insert, Touch, Stored, Has, Without, HoldsNewest;
    c := new Cache(max);
    NothingYet(accesses, max);
    for i := 0 to |accesses|
      invariant fresh(c) && fresh(c.buckets) && c.Valid() && c.maxEntries == max && UpToDate(c.list, accesses, i, max)
    {
      ghost var list := c.list;
      StoredKeyed(c.buckets[..], list);
      match accesses[i] {
        case Look(key, now) =>
          var found, code := c.Find(key, now);
          LookKeeps(list, accesses, i, max);
        case Add(key, code, now) =>
          OrderedSoFar(list, accesses, i, max);
          ghost var victim := c.Put(key, code, now);
          PutIsLru(list, max, key, code, now, victim, c.list);
          AddKeeps(list, accesses, i, max);
      }
    }
    AllDone(c.list, accesses, max);
    HistoryHoldsNewest(accesses, max);
    forall e | e in c.list ensures e.code == Started(accesses, max, e.key) { HistoryKeepsCode(accesses, max, e); }
  }

  lemma NothingYet(accesses: seq<Access>, max: nat)
    ensures UpToDate([], accesses, 0, max)
  {
    assert accesses[..0] == [];
  }

  lemma OrderedSoFar(list: seq<Entry>, accesses: seq<Access>, i: nat, max: nat)
    requires UpToDate(list, accesses, i, max) && i < |accesses|
    ensures NewestFirst(list) && Before(list, accesses[i].now)
  {
  }

  lemma AllDone(list: seq<Entry>, accesses: seq<Access>, max: nat)
    requires UpToDate(list, accesses, |accesses|, max)
    ensures list == After(accesses, max)
  {
    assert accesses[..|accesses|] == accesses;
  }
}
