/**
 JSON values as picojson/picojson.h holds them. An object is a std::map, here its entries in key
 order. A number is an integer that a double holds, or the text of any other numeral, whose value is
 not interpreted.
 */
module JsonValue {
  import opened Bytes
  import opened JsonNumber

  datatype Member = Member(key: bytes, value: Value)

  datatype Value =
    | Null
    | Boolean(b: bool)
    | Number(n: int)
    | Numeral(text: bytes)
    | String(s: bytes)
    | Array(items: seq<Value>)
    | Object(members: seq<Member>)

  // ----- the key order of std::map<std::string, value> -----

  /** Lexicographic order of byte strings. */
  predicate Less(a: bytes, b: bytes) {
    b != [] && (a == [] || a[0] < b[0] || (a[0] == b[0] && Less(a[1..], b[1..])))
  }

  /** One is the other's beginning, or the first byte that differs decides. */
  lemma {:induction false} LessMeans(a: bytes, b: bytes)
    ensures Less(a, b) <==>
            exists k :: 0 <= k <= |a| && k < |b| && a[..k] == b[..k] && (k == |a| || a[k] < b[k])
  {
    if a != [] && b != [] && a[0] == b[0] {
      LessMeans(a[1..], b[1..]);
      if Less(a, b) {
        var k :| 0 <= k < |a| && k < |b| - 1 && a[1..][..k] == b[1..][..k] && (k == |a| - 1 || a[1..][k] < b[1..][k]);
        assert a[..k + 1] == [a[0]] + a[1..][..k] == b[..k + 1];
      }
      forall k | 0 <= k <= |a| && k < |b| && a[..k] == b[..k] && (k == |a| || a[k] < b[k]) ensures Less(a, b) {
        if k > 0 {
          assert a[1..][..k - 1] == a[..k][1..] == b[..k][1..] == b[1..][..k - 1];
        }
      }
    } else if b != [] {
      assert a[..0] == b[..0];
      forall k | 0 < k <= |a| && k < |b| ensures a[..k] != b[..k] {
        assert a[..k][0] == a[0] && b[..k][0] == b[0];
      }
    }
  }

  lemma {:induction false} LessTransitive(a: bytes, b: bytes, c: bytes)
    requires Less(a, b) && Less(b, c)
    ensures Less(a, c)
  {
    if a != [] && a[0] == b[0] == c[0] { LessTransitive(a[1..], b[1..], c[1..]); }
  }

  lemma {:induction false} LessTotal(a: bytes, b: bytes)
    ensures Less(a, b) || Less(b, a) || a == b
    ensures !Less(a, a) && !(Less(a, b) && Less(b, a))
  {
    if a != [] && b != [] {
      LessTotal(a[1..], b[1..]);
      if a[0] == b[0] && a[1..] == b[1..] {
        assert a == [a[0]] + a[1..] == b;
      }
    } else if a != [] {
      LessTotal(a[1..], a[1..]);
    }
    if a != [] { LessTotal(a[1..], a[1..]); }
  }

  // ----- objects as maps -----

  /** o[key] = value on a map held in key order. */
  function Put(o: seq<Member>, key: bytes, value: Value): (r: seq<Member>) {
    if o == [] then [Member(key, value)]
    else if Less(o[0].key, key) then [o[0]] + Put(o[1..], key, value)
    else if o[0].key == key then [Member(key, value)] + o[1..]
    else [Member(key, value)] + o
  }

  function Find(o: seq<Member>, key: bytes): (r: Option<Value>) {
    if o == [] then None else if o[0].key == key then Some(o[0].value) else Find(o[1..], key)
  }

  /** Every key of o comes before the given one. */
  predicate AllBelow(o: seq<Member>, key: bytes) {
    o == [] || (Less(o[0].key, key) && AllBelow(o[1..], key))
  }

  /** Every key of o comes after the given one. */
  predicate AllAbove(o: seq<Member>, key: bytes) {
    o == [] || (Less(key, o[0].key) && AllAbove(o[1..], key))
  }

  predicate Sorted(o: seq<Member>) {
    o == [] || (AllAbove(o[1..], o[0].key) && Sorted(o[1..]))
  }

  lemma {:induction false} AboveTransitive(o: seq<Member>, low: bytes, high: bytes)
    requires AllAbove(o, high) && Less(low, high)
    ensures AllAbove(o, low)
  {
    if o != [] {
      LessTransitive(low, high, o[0].key);
      AboveTransitive(o[1..], low, high);
    }
  }

  lemma {:induction false} PutAbove(o: seq<Member>, key: bytes, value: Value, low: bytes)
    requires AllAbove(o, low) && Less(low, key)
    ensures AllAbove(Put(o, key, value), low)
  {
    if o != [] {
      PutAbove(o[1..], key, value, low);
      if Less(o[0].key, key) { assert Put(o, key, value)[1..] == Put(o[1..], key, value); }
      else if o[0].key == key { assert Put(o, key, value)[1..] == o[1..]; }
      else { assert Put(o, key, value)[1..] == o; }
    }
  }

  /** Insertion keeps the keys in strict order, so no key ever occurs twice. */
  lemma {:induction false} PutSorted(o: seq<Member>, key: bytes, value: Value)
    requires Sorted(o)
    ensures Sorted(Put(o, key, value))
  {
    if o != [] {
      var r := Put(o, key, value);
      if Less(o[0].key, key) {
        PutSorted(o[1..], key, value);
        PutAbove(o[1..], key, value, o[0].key);
        assert r[1..] == Put(o[1..], key, value);
      } else if o[0].key == key {
        assert r[1..] == o[1..];
      } else {
        LessTotal(o[0].key, key);
        AboveTransitive(o[1..], key, o[0].key);
        assert r[1..] == o;
      }
    }
  }

  /** Insertion is map update: the new key has the new value, all other keys keep theirs. */
  lemma {:induction false} PutFind(o: seq<Member>, key: bytes, value: Value, k: bytes)
    requires Sorted(o)
    ensures Find(Put(o, key, value), k) == if k == key then Some(value) else Find(o, k)
  {
    if o != [] {
      var r := Put(o, key, value);
      if Less(o[0].key, key) {
        LessTotal(o[0].key, key);
        PutFind(o[1..], key, value, k);
        assert r[1..] == Put(o[1..], key, value);
      } else if o[0].key == key {
        assert r[1..] == o[1..];
      } else {
        assert r[1..] == o;
      }
    }
  }

  /** Inserting a key above all others appends it. */
  lemma {:induction false} PutAppends(o: seq<Member>, key: bytes, value: Value)
    requires AllBelow(o, key)
    ensures Put(o, key, value) == o + [Member(key, value)]
  {
    if o != [] { PutAppends(o[1..], key, value); }
  }

  lemma {:induction false} BelowAppend(o: seq<Member>, m: Member, key: bytes)
    requires AllBelow(o, m.key) && Less(m.key, key)
    ensures AllBelow(o + [m], key)
  {
    if o != [] {
      LessTransitive(o[0].key, m.key, key);
      BelowAppend(o[1..], m, key);
      assert (o + [m])[1..] == o[1..] + [m];
    }
  }

  // ----- well-formed values -----

  /** The keys of every object, at any depth, are in strict order. */
  predicate Ordered(v: Value)
    decreases v
  {
    match v
    case Array(items) => AllOrdered(items)
    case Object(members) => Sorted(members) && MembersOrdered(members)
    case _ => true
  }

  predicate AllOrdered(items: seq<Value>)
    decreases items
  {
    items == [] || (Ordered(items[0]) && AllOrdered(items[1..]))
  }

  predicate MembersOrdered(members: seq<Member>)
    decreases members
  {
    members == [] || (Ordered(members[0].value) && MembersOrdered(members[1..]))
  }

  /** All numbers, at any depth, are integers that a double holds. */
  predicate Integral(v: Value)
    decreases v
  {
    match v
    case Number(n) => IsDouble(n)
    case Numeral(_) => false
    case Array(items) => AllIntegral(items)
    case Object(members) => MembersIntegral(members)
    case _ => true
  }

  predicate AllIntegral(items: seq<Value>)
    decreases items
  {
    items == [] || (Integral(items[0]) && AllIntegral(items[1..]))
  }

  predicate MembersIntegral(members: seq<Member>)
    decreases members
  {
    members == [] || (Integral(members[0].value) && MembersIntegral(members[1..]))
  }
}
