/** A least-recently-used list: what the bytecode cache is meant to be. */
module LruSpec {
  import opened Extremes

  type Code = seq<int>

  datatype Entry = Entry(key: string, code: Code, lastAccess: int)

  /** The newest entry first; no key twice. */
  ghost predicate Keyed(list: seq<Entry>) {
    forall i, j :: 0 <= i < j < |list| ==> list[i].key != list[j].key
  }

  ghost predicate Has(list: seq<Entry>, key: string) {
    exists i :: 0 <= i < |list| && list[i].key == key
  }

  ghost function Without(list: seq<Entry>, key: string): (rest: seq<Entry>) {
    if list == [] then []
    else if list[0].key == key then list[1..]
    else [list[0]] + Without(list[1..], key)
  }

  ghost function Get(list: seq<Entry>, key: string): (e: Entry)
    requires Has(list, key)
    ensures e in list && e.key == key
  {
    var i :| 0 <= i < |list| && list[i].key == key;
    list[i]
  }

  /** A found entry becomes the newest and keeps its code. */
  ghost function Touch(list: seq<Entry>, key: string, now: int): (next: seq<Entry>)
    requires Has(list, key)
  {
    [Get(list, key).(lastAccess := now)] + Without(list, key)
  }

  ghost function Lookup(list: seq<Entry>, key: string, now: int): (next: seq<Entry>) {
    if Has(list, key) then Touch(list, key, now) else list
  }

  /** A new entry goes to the front; a full list first loses its oldest. */
  ghost function Insert(list: seq<Entry>, max: nat, key: string, code: Code, now: int): (next: seq<Entry>) {
    if Has(list, key) then Touch(list, key, now)
    else [Entry(key, code, now)] + (if |list| >= max && list != [] then list[..|list| - 1] else list)
  }

  // ---- Facts about lists

  lemma {:induction false} WithoutMembers(list: seq<Entry>, key: string, e: Entry)
    requires Keyed(list)
    ensures e in Without(list, key) <==> e in list && e.key != key
  {
    if list != [] {
      WithoutMembers(list[1..], key, e);
      assert list == [list[0]] + list[1..];
      assert e in list <==> e == list[0] || e in list[1..];
    }
  }

  lemma {:induction false} WithoutKeyed(list: seq<Entry>, key: string)
    requires Keyed(list)
    ensures Keyed(Without(list, key)) && !Has(Without(list, key), key)
    ensures |Without(list, key)| == if Has(list, key) then |list| - 1 else |list|
  {
    if list != [] {
      var tail := list[1..];
      WithoutKeyed(tail, key);
      forall e | e in Without(tail, key) ensures e.key != list[0].key { WithoutMembers(tail, key, e); }
      if list[0].key != key {
        assert Has(list, key) <==> Has(tail, key) by {
          if Has(list, key) { var i :| 0 <= i < |list| && list[i].key == key; assert tail[i - 1].key == key; }
          if Has(tail, key) { var i :| 0 <= i < |tail| && tail[i].key == key; assert list[i + 1].key == key; }
        }
      } else {
        assert list[0].key == key;
      }
    }
  }

  lemma {:induction false} WithoutLast(list: seq<Entry>)
    requires Keyed(list) && list != []
    ensures Without(list, list[|list| - 1].key) == list[..|list| - 1]
  {
    if |list| > 1 {
      WithoutLast(list[1..]);
    }
  }

  // ---- What a history of touches leaves

  /** The distinct keys of a history, newest touch first. */
  ghost function Keys(touches: seq<string>): (keys: seq<string>) {
    if touches == [] then [] else [touches[0]] + Drop(Keys(touches[1..]), touches[0])
  }

  ghost function Drop(keys: seq<string>, key: string): (rest: seq<string>) {
    if keys == [] then []
    else if keys[0] == key then keys[1..]
    else [keys[0]] + Drop(keys[1..], key)
  }

  ghost function KeysOf(list: seq<Entry>): (keys: seq<string>) {
    seq(|list|, i requires 0 <= i < |list| => list[i].key)
  }

  /** The list holds the most recently touched keys, as many as there is room for. */
  ghost predicate HoldsNewest(list: seq<Entry>, max: nat, touches: seq<string>) {
    KeysOf(list) == Keys(touches)[..Min(max, |Keys(touches)|)]
  }

  lemma {:induction false} DropWithin(keys: seq<string>, key: string, n: nat)
    requires n <= |keys| && key in keys[..n]
    ensures |Drop(keys, key)| == |keys| - 1 && Drop(keys, key)[..n - 1] == Drop(keys[..n], key)
  {
    if keys[0] != key {
      assert keys[..n][1..] == keys[1..][..n - 1];
      DropWithin(keys[1..], key, n - 1);
    } else {
      assert keys[..n][1..] == keys[1..][..n - 1];
    }
  }

  lemma {:induction false} DropBeyond(keys: seq<string>, key: string, n: nat)
    requires n <= |keys| && key !in keys[..n]
    ensures |Drop(keys, key)| >= n && Drop(keys, key)[..n] == keys[..n]
    ensures n == |keys| ==> Drop(keys, key) == keys
  {
    if keys != [] && n > 0 {
      assert keys[..n] == [keys[0]] + keys[1..][..n - 1];
      DropBeyond(keys[1..], key, n - 1);
    }
  }

  lemma {:induction false} KeysWithout(list: seq<Entry>, key: string)
    ensures KeysOf(Without(list, key)) == Drop(KeysOf(list), key)
  {
    if list != [] {
      KeysWithout(list[1..], key);
      assert KeysOf(list)[1..] == KeysOf(list[1..]);
      assert KeysOf([list[0]] + Without(list[1..], key)) == [list[0].key] + KeysOf(Without(list[1..], key));
    }
  }

  lemma HasKey(list: seq<Entry>, key: string)
    ensures Has(list, key) <==> key in KeysOf(list)
  {
    if Has(list, key) {
      var i :| 0 <= i < |list| && list[i].key == key;
      assert KeysOf(list)[i] == key;
    }
  }

  /** A hit, in a lookup or an insertion, keeps the newest keys. */
  lemma TouchHoldsNewest(list: seq<Entry>, max: nat, touches: seq<string>, key: string, now: int)
    requires max > 0 && Has(list, key) && HoldsNewest(list, max, touches)
    ensures HoldsNewest(Touch(list, key, now), max, [key] + touches)
  {
    var keys := Keys(touches);
    var n := Min(max, |keys|);
    HasKey(list, key);
    DropWithin(keys, key, n);
    KeysWithout(list, key);
    assert ([key] + touches)[1..] == touches;
    assert KeysOf(Touch(list, key, now)) == [key] + KeysOf(Without(list, key));
    assert ([key] + Drop(keys, key))[..n] == [key] + Drop(keys, key)[..n - 1];
  }

  lemma FrontOfKeys(keys: seq<string>, rest: seq<string>, key: string, max: nat, m: nat)
    requires max > 0 && m == (if |keys| >= max then max - 1 else |keys|)
    requires |rest| >= Min(max, |keys|) && rest[..Min(max, |keys|)] == keys[..Min(max, |keys|)]
    requires |keys| < max ==> rest == keys
    ensures ([key] + rest)[..Min(max, |rest| + 1)] == [key] + keys[..m]
  {
    var n := Min(max, |keys|);
    assert rest[..m] == rest[..n][..m] == keys[..n][..m] == keys[..m];
    assert ([key] + rest)[..m + 1] == [key] + rest[..m];
  }

  lemma KeysAdded(e: Entry, kept: seq<Entry>)
    ensures KeysOf([e] + kept) == [e.key] + KeysOf(kept)
  {
  }

  /** A miss in an insertion keeps the newest keys. */
  lemma AddHoldsNewest(list: seq<Entry>, max: nat, touches: seq<string>, key: string, code: Code, now: int)
    requires max > 0 && !Has(list, key) && HoldsNewest(list, max, touches)
    ensures HoldsNewest(Insert(list, max, key, code, now), max, [key] + touches)
  {
    var keys := Keys(touches);
    var n := Min(max, |keys|);
    HasKey(list, key);
    DropBeyond(keys, key, n);
    assert ([key] + touches)[1..] == touches;
    hide Has, Drop;
    var m := if |list| >= max then |list| - 1 else |list|;
    var kept := list[..m];
    assert list[..|list|] == list;
    assert |KeysOf(list)| == |list| == n;
    assert KeysOf(kept) == keys[..m];
    FrontOfKeys(keys, Drop(keys, key), key, max, m);
    KeysAdded(Entry(key, code, now), kept);
  }

  // ---- Whole histories

  datatype Access = Look(key: string, now: int) | Add(key: string, code: Code, now: int)

  ghost function After(accesses: seq<Access>, max: nat): (list: seq<Entry>) {
    if accesses == [] then []
    else
      var list, last := After(accesses[..|accesses| - 1], max), accesses[|accesses| - 1];
      match last
      case Look(key, now) => Lookup(list, key, now)
      case Add(key, code, now) => Insert(list, max, key, code, now)
  }

  /** The keys that an access found or stored, newest first. */
  ghost function Touches(accesses: seq<Access>, max: nat): (keys: seq<string>) {
    if accesses == [] then []
    else
      var before, last := accesses[..|accesses| - 1], accesses[|accesses| - 1];
      (if last.Add? || Has(After(before, max), last.key) then [last.key] else []) + Touches(before, max)
  }

  /** After any history the list holds exactly the most recently touched keys. */
  lemma {:induction false} HistoryHoldsNewest(accesses: seq<Access>, max: nat)
    requires max > 0
    ensures HoldsNewest(After(accesses, max), max, Touches(accesses, max))
  {
    if accesses == [] {
      assert KeysOf([]) == [];
    } else {
      var before, last := accesses[..|accesses| - 1], accesses[|accesses| - 1];
      HistoryHoldsNewest(before, max);
      var list, touches := After(before, max), Touches(before, max);
      assert [] + touches == touches;
      if Has(list, last.key) {
        TouchHoldsNewest(list, max, touches, last.key, last.now);
      } else if last.Add? {
        AddHoldsNewest(list, max, touches, last.key, last.code, last.now);
      }
    }
  }

  /** The code of the insertion that began the present stay of a key in the list. */
  ghost function Started(accesses: seq<Access>, max: nat, key: string): (code: Code) {
    if accesses == [] then []
    else
      var before, last := accesses[..|accesses| - 1], accesses[|accesses| - 1];
      if last.Add? && last.key == key && !Has(After(before, max), key) then last.code else Started(before, max, key)
  }

  lemma {:induction false} HistoryKeyed(accesses: seq<Access>, max: nat)
    ensures Keyed(After(accesses, max))
  {
    if accesses != [] {
      var before, last := accesses[..|accesses| - 1], accesses[|accesses| - 1];
      HistoryKeyed(before, max);
      StepKeyed(After(before, max), max, last);
    }
  }

  lemma StepKeyed(list: seq<Entry>, max: nat, last: Access)
    requires Keyed(list)
    ensures Has(list, last.key) ==> Keyed(Touch(list, last.key, last.now))
    ensures last.Add? && !Has(list, last.key) ==> Keyed(Insert(list, max, last.key, last.code, last.now))
  {
    WithoutKeyed(list, last.key);
  }

  lemma TouchedCode(list: seq<Entry>, key: string, now: int, e: Entry)
    requires Keyed(list) && Has(list, key) && e in Touch(list, key, now)
    ensures exists x :: x in list && x.key == e.key && x.code == e.code
  {
    var found := Get(list, key);
    WithoutMembers(list, key, e);
    if e.key == key {
      assert found in list && found.key == e.key && found.code == e.code;
    } else {
      assert e in list && e.key == e.key && e.code == e.code;
    }
  }

  /** Every entry holds the code of the insertion that began its stay: hits never change it. */
  lemma {:induction false} HistoryKeepsCode(accesses: seq<Access>, max: nat, e: Entry)
    requires e in After(accesses, max)
    ensures e.code == Started(accesses, max, e.key)
  {
    var before, last := accesses[..|accesses| - 1], accesses[|accesses| - 1];
    var list := After(before, max);
    HistoryKeyed(before, max);
    if Has(list, last.key) {
      TouchedCode(list, last.key, last.now, e);
      var x :| x in list && x.key == e.key && x.code == e.code;
      HistoryKeepsCode(before, max, x);
    } else if e in list {
      assert e.key != last.key;
      HistoryKeepsCode(before, max, e);
    }
  }
}
