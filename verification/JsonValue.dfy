/** JSON values as json11 holds them, and its equality. */
module JsonValue {
  import opened Decimal

  type int32 = x: int | -0x8000_0000 <= x < 0x8000_0000

  /**
   * `Int` and `Double` are the two NUMBER representations. A `std::map` is the sequence of its
   * entries in iteration order, so its keys are strictly increasing (see `WellFormed`).
   */
  datatype Json =
    | Null
    | Int(n: int32)
    | Double(d: real)
    | Bool(b: bool)
    | Str(s: Bytes)
    | Arr(items: seq<Json>)
    | Obj(members: seq<Member>)

  datatype Member = Member(key: Bytes, value: Json)

  /** `std::string::operator<`: lexicographic on unsigned bytes. */
  predicate BytesLess(a: Bytes, b: Bytes) {
    if b == [] then false
    else if a == [] then true
    else if a[0] != b[0] then a[0] < b[0]
    else BytesLess(a[1..], b[1..])
  }

  ghost predicate SortedKeys(ms: seq<Member>) {
    forall i, j :: 0 <= i < j < |ms| ==> BytesLess(ms[i].key, ms[j].key)
  }

  ghost predicate WellFormed(v: Json) {
    match v
    case Arr(items) => forall x :: x in items ==> WellFormed(x)
    case Obj(ms) => SortedKeys(ms) && forall m :: m in ms ==> WellFormed(m.value)
    case _ => true
  }

  lemma {:induction false} BytesLessIrreflexive(a: Bytes)
    ensures !BytesLess(a, a)
  {
    if a != [] {
      BytesLessIrreflexive(a[1..]);
    }
  }

  lemma {:induction false} BytesLessTransitive(a: Bytes, b: Bytes, c: Bytes)
    requires BytesLess(a, b) && BytesLess(b, c)
    ensures BytesLess(a, c)
  {
    if a != [] && a[0] == b[0] == c[0] {
      BytesLessTransitive(a[1..], b[1..], c[1..]);
    }
  }

  lemma {:induction false} BytesLessTotal(a: Bytes, b: Bytes)
    ensures BytesLess(a, b) || a == b || BytesLess(b, a)
  {
    if a != [] && b != [] && a[0] == b[0] {
      BytesLessTotal(a[1..], b[1..]);
      assert a == [a[0]] + a[1..] && b == [b[0]] + b[1..];
    }
  }

  lemma BytesLessAsymmetric(a: Bytes, b: Bytes)
    requires BytesLess(a, b)
    ensures !BytesLess(b, a) && a != b
  {
    BytesLessIrreflexive(a);
    if BytesLess(b, a) {
      BytesLessTransitive(a, b, a);
    }
  }

  /** `data[key] = value` on a `std::map`: replaces the entry or inserts it in key order. */
  function Insert(ms: seq<Member>, key: Bytes, value: Json): seq<Member> {
    if ms == [] then [Member(key, value)]
    else if ms[0].key == key then [Member(key, value)] + ms[1..]
    else if BytesLess(key, ms[0].key) then [Member(key, value)] + ms
    else [ms[0]] + Insert(ms[1..], key, value)
  }

  ghost predicate KeysFrom(ms: seq<Member>, low: Bytes) {
    forall m :: m in ms ==> BytesLess(low, m.key)
  }

  lemma SortedCons(m: Member, ms: seq<Member>)
    requires SortedKeys(ms) && KeysFrom(ms, m.key)
    ensures SortedKeys([m] + ms)
  {
    var all := [m] + ms;
    forall i, j | 0 <= i < j < |all| ensures BytesLess(all[i].key, all[j].key) {
      assert all[j] == ms[j - 1];
      if i > 0 {
        assert all[i] == ms[i - 1];
      }
    }
  }

  /** A map assignment keeps the entries sorted, sets that key and leaves every other key as it was. */
  lemma {:induction false} InsertIsMapUpdate(ms: seq<Member>, key: Bytes, value: Json)
    requires SortedKeys(ms)
    ensures SortedKeys(Insert(ms, key, value))
    ensures forall m :: m in Insert(ms, key, value) <==>
                        m == Member(key, value) || (m in ms && m.key != key)
  {
    if ms == [] {
    } else {
      var rest := ms[1..];
      assert ms == [ms[0]] + rest;
      assert SortedKeys(rest);
      forall m | m in rest ensures BytesLess(ms[0].key, m.key) && m.key != ms[0].key {
        var k :| 0 <= k < |rest| && rest[k] == m;
        assert m == ms[k + 1];
        BytesLessIrreflexive(m.key);
      }
      if ms[0].key == key {
        SortedCons(Member(key, value), rest);
      } else if BytesLess(key, ms[0].key) {
        forall m | m in ms ensures BytesLess(key, m.key) && m.key != key {
          if m != ms[0] {
            BytesLessTransitive(key, ms[0].key, m.key);
          }
          BytesLessIrreflexive(key);
        }
        SortedCons(Member(key, value), ms);
      } else {
        InsertIsMapUpdate(rest, key, value);
        BytesLessTotal(key, ms[0].key);
        SortedCons(ms[0], Insert(rest, key, value));
      }
    }
  }

  /** Inserting above every key appends. */
  lemma {:induction false} InsertLast(ms: seq<Member>, key: Bytes, value: Json)
    requires forall m :: m in ms ==> BytesLess(m.key, key)
    ensures Insert(ms, key, value) == ms + [Member(key, value)]
  {
    if ms == [] {
    } else {
      BytesLessAsymmetric(ms[0].key, key);
      InsertLast(ms[1..], key, value);
      assert ms + [Member(key, value)] == [ms[0]] + (ms[1..] + [Member(key, value)]);
    }
  }

  /** Nesting depth: a value whose root is at level 0 has its deepest node at level `Height`. */
  function Height(v: Json): nat {
    match v
    case Arr(items) => ItemsHeight(items)
    case Obj(ms) => MembersHeight(ms)
    case _ => 0
  }

  function Max(a: nat, b: nat): nat {
    if a < b then b else a
  }

  function ItemsHeight(items: seq<Json>): nat {
    if items == [] then 0 else Max(1 + Height(items[0]), ItemsHeight(items[1..]))
  }

  function MembersHeight(ms: seq<Member>): nat {
    if ms == [] then 0 else Max(1 + Height(ms[0].value), MembersHeight(ms[1..]))
  }
}
