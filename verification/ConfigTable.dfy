/**
 The 64-slot table of ConfigFile/ConfigFile.cpp and the finite map that it implements. Allocation
 always succeeds here. A null pointer argument is None.
 */
module ConfigTable {
  import opened Bytes

  const MAX_CONFIG: nat := 64
  const MAX_KEY: nat := 64
  const MAX_VALUE: nat := 128

  datatype Entry = Entry(key: bytes, value: bytes)

  type slots = seq<Option<Entry>>

  // ----- operations on slots -----

  /** The first slot from i on that holds the key, or the number of slots. */
  function FindKey(t: slots, key: bytes, i: nat): (r: nat)
    requires i <= |t|
    ensures i <= r <= |t|
    ensures r < |t| ==> t[r].Some? && t[r].value.key == key
    ensures forall j :: i <= j < r ==> t[j] == None || t[j].value.key != key
    decreases |t| - i
  {
    if i == |t| || (t[i].Some? && t[i].value.key == key) then i else FindKey(t, key, i + 1)
  }

  /** The first empty slot from i on, or the number of slots. */
  function FindEmpty(t: slots, i: nat): (r: nat)
    requires i <= |t|
    ensures i <= r <= |t|
    ensures r < |t| ==> t[r] == None
    ensures forall j :: i <= j < r ==> t[j].Some?
    decreases |t| - i
  {
    if i == |t| || t[i].None? then i else FindEmpty(t, i + 1)
  }

  /** The slots after setValue, and whether there was room. */
  function Set(t: slots, key: bytes, value: bytes): (r: (slots, bool))
    ensures |r.0| == |t|
  {
    var k := FindKey(t, key, 0);
    var e := FindEmpty(t, 0);
    if k < |t| then (t[k := Some(Entry(key, value))], true)
    else if e < |t| then (t[e := Some(Entry(key, value))], true)
    else (t, false)
  }

  /** The same with the size checks in front. */
  function Store(t: slots, e: Entry): (r: slots)
    ensures |r| == |t|
  {
    if |e.key| <= MAX_KEY && |e.value| <= MAX_VALUE then Set(t, e.key, e.value).0 else t
  }

  function Remove(t: slots, key: bytes): (r: slots)
    ensures |r| == |t|
  {
    var k := FindKey(t, key, 0);
    if k < |t| then t[k := None] else t
  }

  /** The entries in slot order. */
  function Entries(t: slots): (r: seq<Entry>) {
    if t == [] then []
    else Entries(t[..|t| - 1]) + if t[|t| - 1].Some? then [t[|t| - 1].value] else []
  }

  /** No two slots share a key. */
  predicate Distinct(t: slots) {
    forall i, j :: 0 <= i < j < |t| && t[i].Some? && t[j].Some? ==> t[i].value.key != t[j].value.key
  }

  // ----- the map -----

  function ToMap(t: slots): (m: map<bytes, bytes>) {
    if t == [] then map[]
    else
      var m := ToMap(t[..|t| - 1]);
      if t[|t| - 1].Some? then m[t[|t| - 1].value.key := t[|t| - 1].value.value] else m
  }

  /** The entry for a key is in one of the slots, or absent from all. */
  ghost predicate Holds(t: slots, key: bytes, value: bytes) {
    exists i :: 0 <= i < |t| && t[i] == Some(Entry(key, value))
  }

  lemma {:induction false} MapHolds(t: slots, key: bytes, value: bytes)
    requires Distinct(t)
    ensures Holds(t, key, value) <==> key in ToMap(t) && ToMap(t)[key] == value
    decreases |t|
  {
    if t != [] {
      var u, last := t[..|t| - 1], t[|t| - 1];
      MapHolds(u, key, value);
      assert forall i :: 0 <= i < |u| ==> t[i] == u[i];
      if last.Some? && last.value.key == key {
        if Holds(t, key, value) {
          var i :| 0 <= i < |t| && t[i] == Some(Entry(key, value));
        } else {
          assert last != Some(Entry(key, value)) by { assert t[|t| - 1] == last; }
        }
      } else if Holds(t, key, value) {
        var i :| 0 <= i < |t| && t[i] == Some(Entry(key, value));
        assert u[i] == Some(Entry(key, value));
      }
    }
  }

  /** The map is determined by what the slots hold. */
  lemma MapIs(t: slots, m: map<bytes, bytes>)
    requires Distinct(t)
    requires forall k, v :: Holds(t, k, v) <==> k in m && m[k] == v
    ensures ToMap(t) == m
  {
    var n := ToMap(t);
    forall k ensures k in n <==> k in m {
      if k in n { MapHolds(t, k, n[k]); }
      if k in m { MapHolds(t, k, m[k]); }
    }
    forall k | k in m ensures n[k] == m[k] {
      MapHolds(t, k, m[k]);
    }
  }

  lemma MapHoldsAll(t: slots)
    requires Distinct(t)
    ensures forall k, v :: Holds(t, k, v) <==> k in ToMap(t) && ToMap(t)[k] == v
  {
    forall k, v ensures Holds(t, k, v) <==> k in ToMap(t) && ToMap(t)[k] == v {
      MapHolds(t, k, v);
    }
  }

  /** FindKey decides membership. */
  lemma FindKeyInMap(t: slots, key: bytes)
    requires Distinct(t)
    ensures FindKey(t, key, 0) < |t| <==> key in ToMap(t)
    ensures FindKey(t, key, 0) < |t| ==> ToMap(t)[key] == t[FindKey(t, key, 0)].value.value
  {
    var k := FindKey(t, key, 0);
    if k < |t| {
      assert t[k] == Some(Entry(key, t[k].value.value));
      MapHolds(t, key, t[k].value.value);
    }
    if key in ToMap(t) {
      MapHolds(t, key, ToMap(t)[key]);
      var i :| 0 <= i < |t| && t[i] == Some(Entry(key, ToMap(t)[key]));
    }
  }

  /** Replacing the only slot that may hold the key updates the map. */
  lemma UpdateSlot(t: slots, i: nat, key: bytes, value: bytes)
    requires Distinct(t) && i < |t|
    requires forall j :: 0 <= j < |t| && j != i && t[j].Some? ==> t[j].value.key != key
    requires t[i].Some? ==> t[i].value.key == key
    ensures var u := t[i := Some(Entry(key, value))]; Distinct(u) && ToMap(u) == ToMap(t)[key := value]
  {
    var u := t[i := Some(Entry(key, value))];
    MapHoldsAll(t);
    forall k, v ensures Holds(u, k, v) <==> k in ToMap(t)[key := value] && ToMap(t)[key := value][k] == v {
      if k == key {
        if v == value { assert u[i] == Some(Entry(k, v)); }
      } else {
        if Holds(u, k, v) {
          var j :| 0 <= j < |u| && u[j] == Some(Entry(k, v));
          assert t[j] == Some(Entry(k, v));
        }
        if Holds(t, k, v) {
          var j :| 0 <= j < |t| && t[j] == Some(Entry(k, v));
          assert u[j] == Some(Entry(k, v));
        }
      }
    }
    MapIs(u, ToMap(t)[key := value]);
  }

  /** setValue is map update, refused only for a new key in a full table. */
  lemma SetRefinesMap(t: slots, key: bytes, value: bytes)
    requires Distinct(t)
    ensures var (u, ok) := Set(t, key, value);
            Distinct(u) &&
            (ok <==> key in ToMap(t) || |ToMap(t)| < |t|) &&
            ToMap(u) == if ok then ToMap(t)[key := value] else ToMap(t)
  {
    var k, e := FindKey(t, key, 0), FindEmpty(t, 0);
    FindKeyInMap(t, key);
    EntriesCount(t);
    FullTable(t);
    if k < |t| {
      UpdateSlot(t, k, key, value);
    } else if e < |t| {
      UpdateSlot(t, e, key, value);
    }
  }

  /** remove is map restriction. */
  lemma RemoveRefinesMap(t: slots, key: bytes)
    requires Distinct(t)
    ensures Distinct(Remove(t, key)) && ToMap(Remove(t, key)) == ToMap(t) - {key}
  {
    var k := FindKey(t, key, 0);
    var u := Remove(t, key);
    MapHoldsAll(t);
    FindKeyInMap(t, key);
    forall j, v ensures Holds(u, j, v) <==> j in ToMap(t) - {key} && (ToMap(t) - {key})[j] == v {
      if Holds(u, j, v) {
        var i :| 0 <= i < |u| && u[i] == Some(Entry(j, v));
        assert t[i] == Some(Entry(j, v));
      }
      if j != key && Holds(t, j, v) {
        var i :| 0 <= i < |t| && t[i] == Some(Entry(j, v));
        assert u[i] == Some(Entry(j, v));
      }
    }
    MapIs(u, ToMap(t) - {key});
  }

  lemma {:induction false} EntriesCount(t: slots)
    requires Distinct(t)
    ensures |Entries(t)| == |ToMap(t)| <= |t|
    decreases |t|
  {
    if t != [] {
      var u, last := t[..|t| - 1], t[|t| - 1];
      EntriesCount(u);
      if last.Some? {
        FindKeyInMap(u, last.value.key);
        var k := FindKey(u, last.value.key, 0);
        assert forall j :: 0 <= j < |u| ==> t[j] == u[j];
      }
    }
  }

  lemma {:induction false} FullTable(t: slots)
    ensures |Entries(t)| == |t| <==> FindEmpty(t, 0) == |t|
    decreases |t|
  {
    var e := FindEmpty(t, 0);
    EntriesAtMost(t);
    if t != [] {
      var u := t[..|t| - 1];
      FullTable(u);
      EntriesAtMost(u);
      var f := FindEmpty(u, 0);
      if f < |u| { assert t[f] == u[f]; }
      if e < |u| { assert t[e] == u[e]; }
    }
  }

  lemma {:induction false} EntriesAtMost(t: slots)
    ensures |Entries(t)| <= |t|
    decreases |t|
  {
    if t != [] { EntriesAtMost(t[..|t| - 1]); }
  }

  /** The enumeration lists every entry of the map exactly once. */
  lemma {:induction false} EntriesAreMap(t: slots, e: Entry)
    requires Distinct(t)
    ensures e in Entries(t) <==> e.key in ToMap(t) && ToMap(t)[e.key] == e.value
    ensures forall i, j :: 0 <= i < j < |Entries(t)| ==> Entries(t)[i].key != Entries(t)[j].key
    decreases |t|
  {
    if t != [] {
      var u, last := t[..|t| - 1], t[|t| - 1];
      EntriesAreMap(u, e);
      if last.Some? {
        var k := last.value.key;
        FindKeyInMap(u, k);
        var i := FindKey(u, k, 0);
        assert forall j :: 0 <= j < |u| ==> t[j] == u[j];
        assert k !in ToMap(u);
        forall f | f in Entries(u) ensures f.key != k {
          EntriesAreMap(u, f);
        }
      }
    }
  }

  // ----- the class -----

  class ConfigFile {
    const configlist: array<Option<Entry>>

    ghost predicate Valid()
      reads this, configlist
    {
      configlist.Length == MAX_CONFIG && Distinct(configlist[..]) && WithinLimits(configlist[..])
    }

    ghost function Contents(): (m: map<bytes, bytes>)
      reads this, configlist
    {
      ToMap(configlist[..])
    }

    constructor ()
      ensures Valid() && fresh(configlist) && configlist[..] == Empty() && Contents() == map[]
    {
      configlist := new Option<Entry>[MAX_CONFIG](_ => None);
      new;
      assert configlist[..] == Empty();
      EmptyIsEmpty(MAX_CONFIG);
    }

    /** search: the slot of the key, or -1. */
    method Search(key: bytes) returns (slot: int)
      requires Valid()
      ensures slot == -1 <==> key !in Contents()
      ensures slot != -1 ==>
                0 <= slot < configlist.Length && slot == FindKey(configlist[..], key, 0) &&
                configlist[slot].Some? && Contents()[key] == configlist[slot].value.value
    {
      FindKeyInMap(configlist[..], key);
      for i := 0 to MAX_CONFIG
        invariant FindKey(configlist[..], key, i) == FindKey(configlist[..], key, 0)
      {
        if configlist[i].Some? && configlist[i].value.key == key {
          return i;
        }
      }
      return -1;
    }

    /** add: the first empty slot takes the entry. */
    method Add(e: Entry) returns (ok: bool)
      requires configlist.Length == MAX_CONFIG
      modifies configlist
      ensures var t := old(configlist[..]);
              var i := FindEmpty(t, 0);
              (ok <==> i < |t|) && configlist[..] == if ok then t[i := Some(e)] else t
    {
      for i := 0 to MAX_CONFIG
        invariant configlist[..] == old(configlist[..])
        invariant FindEmpty(configlist[..], i) == FindEmpty(configlist[..], 0)
      {
        if configlist[i].None? {
          configlist[i] := Some(e);
          return true;
        }
      }
      return false;
    }

    method GetValue(key: Option<bytes>, size: nat) returns (ok: bool, value: bytes)
      requires Valid()
      ensures ok <==> key.Some? && key.value in Contents() && |Contents()[key.value]| < size
      ensures ok ==> value == Contents()[key.value]
    {
      ok, value := false, [];
      if key.None? {
        return;
      }
      var p := Search(key.value);
      if p == -1 {
        return;
      }
      if size <= |configlist[p].value.value| {
        return;
      }
      return true, configlist[p].value.value;
    }

    method SetValue(key: Option<bytes>, value: Option<bytes>) returns (ok: bool)
      requires Valid()
      modifies configlist
      ensures Valid()
      ensures ok <==> key.Some? && value.Some? && |key.value| <= 64 && |value.value| <= 128 &&
                      (key.value in old(Contents()) || |old(Contents())| < 64)
      ensures Contents() == if ok then old(Contents())[key.value := value.value] else old(Contents())
      ensures configlist[..] ==
              if key.Some? && value.Some? then Store(old(configlist[..]), Entry(key.value, value.value))
              else old(configlist[..])
    {
      if key.None? || value.None? {
        return false;
      }
      if MAX_KEY < |key.value| || MAX_VALUE < |value.value| {
        return false;
      }
      ghost var t := configlist[..];
      SetRefinesMap(t, key.value, value.value);
      hide ToMap, Distinct;
      var p := Search(key.value);
      if p == -1 {
        FindKeyInMap(t, key.value);
        ok := Add(Entry(key.value, value.value));
      } else {
        if value.value == configlist[p].value.value {
          assert t[p := Some(Entry(key.value, value.value))] == t;
          return true;
        }
        configlist[p] := Some(Entry(key.value, value.value));
        ok := true;
      }
    }

    method RemoveKey(key: Option<bytes>) returns (ok: bool)
      requires Valid()
      modifies configlist
      ensures Valid()
      ensures ok <==> key.Some? && key.value in old(Contents())
      ensures Contents() == if ok then old(Contents()) - {key.value} else old(Contents())
      ensures configlist[..] == if ok then Remove(old(configlist[..]), key.value) else old(configlist[..])
    {
      if key.None? {
        return false;
      }
      ghost var t := configlist[..];
      RemoveRefinesMap(t, key.value);
      FindKeyInMap(t, key.value);
      hide ToMap, Distinct;
      for i := 0 to MAX_CONFIG
        invariant configlist[..] == t
        invariant FindKey(t, key.value, i) == FindKey(t, key.value, 0)
      {
        if configlist[i].Some? && configlist[i].value.key == key.value {
          configlist[i] := None;
          return true;
        }
      }
      return false;
    }

    method RemoveAll()
      requires Valid()
      modifies configlist
      ensures Valid() && configlist[..] == Empty() && Contents() == map[]
    {
      for i := 0 to MAX_CONFIG
        invariant forall j :: 0 <= j < i ==> configlist[j] == None
      {
        configlist[i] := None;
      }
      assert configlist[..] == Empty();
      EmptyIsEmpty(MAX_CONFIG);
    }

    method GetCount() returns (count: nat)
      requires Valid()
      ensures count == |Contents()|
    {
      count := 0;
      for i := 0 to MAX_CONFIG
        invariant count == |Entries(configlist[..i])|
      {
        assert configlist[..i + 1][..i] == configlist[..i];
        if configlist[i].Some? {
          count := count + 1;
        }
      }
      assert configlist[..MAX_CONFIG] == configlist[..];
      EntriesCount(configlist[..]);
    }

    /** The index-th entry in slot order, if both strings fit the buffers. */
    method GetKeyAndValue(index: int, keySize: nat, valueSize: nat) returns (ok: bool, key: bytes, value: bytes)
      requires Valid()
      ensures |Entries(configlist[..])| == |Contents()|
      ensures ok <==>
                0 <= index < |Entries(configlist[..])| && |Entries(configlist[..])[index].key| < keySize &&
                |Entries(configlist[..])[index].value| < valueSize
      ensures ok ==> Entry(key, value) == Entries(configlist[..])[index]
    {
      EntriesCount(configlist[..]);
      ok, key, value := false, [], [];
      var cnt := 0;
      for i := 0 to MAX_CONFIG
        invariant cnt == |Entries(configlist[..i])| && !(0 <= index < cnt)
      {
        var p := configlist[i];
        assert configlist[..i + 1][..i] == configlist[..i];
        if p.Some? {
          if cnt == index {
            EntriesPrefix(configlist[..], i);
            if |p.value.key| < keySize && |p.value.value| < valueSize {
              return true, p.value.key, p.value.value;
            }
            return;
          }
          cnt := cnt + 1;
        }
      }
      assert configlist[..MAX_CONFIG] == configlist[..];
    }
  }

  /** The size checks of setValue hold of everything in the table. */
  predicate WithinLimits(t: slots) {
    forall i :: 0 <= i < |t| && t[i].Some? ==> |t[i].value.key| <= MAX_KEY && |t[i].value.value| <= MAX_VALUE
  }

  function Empty(): (t: slots)
    ensures |t| == MAX_CONFIG && forall i :: 0 <= i < |t| ==> t[i] == None
  {
    seq(MAX_CONFIG, _ => None)
  }

  lemma {:induction false} EmptyIsEmpty(n: nat)
    requires n <= MAX_CONFIG
    ensures ToMap(Empty()[..n]) == map[] && Entries(Empty()[..n]) == []
    ensures n == MAX_CONFIG ==> Empty()[..n] == Empty()
  {
    if n > 0 {
      EmptyIsEmpty(n - 1);
      assert Empty()[..n][..n - 1] == Empty()[..n - 1];
    }
  }

  /** Where an entry stands in the enumeration. */
  lemma {:induction false} EntriesPrefix(t: slots, i: nat)
    requires i < |t| && t[i].Some?
    ensures |Entries(t[..i])| < |Entries(t)| && Entries(t)[|Entries(t[..i])|] == t[i].value
    decreases |t|
  {
    var u := t[..|t| - 1];
    if i < |u| {
      assert u[..i] == t[..i];
      EntriesPrefix(u, i);
    } else {
      assert t[..i] == u;
    }
  }
}
