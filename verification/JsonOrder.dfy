/** `Json::operator==` and `Json::operator<` over nested values. */
module JsonOrder {
  import opened Decimal
  import opened JsonValue

  /** Position of the type tag in `enum Type`. */
  function Rank(v: Json): nat {
    match v
    case Null => 0
    case Int(_) => 1
    case Double(_) => 1
    case Bool(_) => 2
    case Str(_) => 3
    case Arr(_) => 4
    case Obj(_) => 5
  }

  /** `number_value()`. */
  function NumberValue(v: Json): real {
    match v
    case Int(n) => n as real
    case Double(d) => d
    case _ => 0.0
  }

  predicate Eq(a: Json, b: Json)
    decreases a
  {
    Rank(a) == Rank(b) &&
    match a
    case Null => true
    case Int(_) => NumberValue(a) == NumberValue(b)
    case Double(_) => NumberValue(a) == NumberValue(b)
    case Bool(x) => x == b.b
    case Str(x) => x == b.s
    case Arr(xs) => ItemsEq(xs, b.items)
    case Obj(ms) => MembersEq(ms, b.members)
  }

  predicate ItemsEq(a: seq<Json>, b: seq<Json>)
    decreases a
  {
    if a == [] || b == [] then a == [] && b == []
    else Eq(a[0], b[0]) && ItemsEq(a[1..], b[1..])
  }

  predicate MembersEq(a: seq<Member>, b: seq<Member>)
    decreases a
  {
    if a == [] || b == [] then a == [] && b == []
    else a[0].key == b[0].key && Eq(a[0].value, b[0].value) && MembersEq(a[1..], b[1..])
  }

  /** Node counts: comparing swaps its operands, so the recursion descends on the two together. */
  function Size(v: Json): nat {
    match v
    case Arr(xs) => 1 + ItemsSize(xs)
    case Obj(ms) => 1 + MembersSize(ms)
    case _ => 1
  }

  function ItemsSize(xs: seq<Json>): nat {
    if xs == [] then 0 else 1 + Size(xs[0]) + ItemsSize(xs[1..])
  }

  function MembersSize(ms: seq<Member>): nat {
    if ms == [] then 0 else 1 + Size(ms[0].value) + MembersSize(ms[1..])
  }

  predicate Less(a: Json, b: Json)
    decreases Size(a) + Size(b)
  {
    if Rank(a) != Rank(b) then Rank(a) < Rank(b)
    else
      match a
      case Null => false
      case Int(_) => NumberValue(a) < NumberValue(b)
      case Double(_) => NumberValue(a) < NumberValue(b)
      case Bool(x) => !x && b.b
      case Str(x) => BytesLess(x, b.s)
      case Arr(xs) => ItemsLess(xs, b.items)
      case Obj(ms) => MembersLess(ms, b.members)
  }

  /** `std::lexicographical_compare` of two vectors. */
  predicate ItemsLess(a: seq<Json>, b: seq<Json>)
    decreases ItemsSize(a) + ItemsSize(b)
  {
    if b == [] then false
    else if a == [] then true
    else if Less(a[0], b[0]) then true
    else if Less(b[0], a[0]) then false
    else ItemsLess(a[1..], b[1..])
  }

  /** `std::lexicographical_compare` of two maps, each entry compared as a `std::pair`. */
  predicate MembersLess(a: seq<Member>, b: seq<Member>)
    decreases MembersSize(a) + MembersSize(b)
  {
    if b == [] then false
    else if a == [] then true
    else
      var x, y := a[0], b[0];
      if BytesLess(x.key, y.key) || (!BytesLess(y.key, x.key) && Less(x.value, y.value)) then true
      else if BytesLess(y.key, x.key) || (!BytesLess(x.key, y.key) && Less(y.value, x.value)) then false
      else MembersLess(a[1..], b[1..])
  }

  ghost predicate ExactlyOne(p: bool, q: bool, r: bool) {
    (p || q || r) && !(p && q) && !(p && r) && !(q && r)
  }

  /** Any two values are related in exactly one way: smaller, equal or greater. */
  lemma {:induction false} Trichotomy(a: Json, b: Json)
    ensures ExactlyOne(Less(a, b), Eq(a, b), Less(b, a))
    ensures Eq(a, b) == Eq(b, a)
    decreases a
  {
    if a.Str? && b.Str? {
      BytesLessTotal(a.s, b.s);
      BytesLessIrreflexive(a.s);
      if BytesLess(a.s, b.s) {
        BytesLessAsymmetric(a.s, b.s);
      }
    } else if a.Arr? && b.Arr? {
      ItemsTrichotomy(a.items, b.items);
    } else if a.Obj? && b.Obj? {
      MembersTrichotomy(a.members, b.members);
    }
  }

  lemma {:induction false} ItemsTrichotomy(a: seq<Json>, b: seq<Json>)
    ensures ExactlyOne(ItemsLess(a, b), ItemsEq(a, b), ItemsLess(b, a))
    ensures ItemsEq(a, b) == ItemsEq(b, a)
    decreases a
  {
    if a != [] && b != [] {
      Trichotomy(a[0], b[0]);
      ItemsTrichotomy(a[1..], b[1..]);
    }
  }

  lemma {:induction false} MembersTrichotomy(a: seq<Member>, b: seq<Member>)
    ensures ExactlyOne(MembersLess(a, b), MembersEq(a, b), MembersLess(b, a))
    ensures MembersEq(a, b) == MembersEq(b, a)
    decreases a
  {
    if a != [] && b != [] {
      KeyTrichotomy(a[0].key, b[0].key);
      Trichotomy(a[0].value, b[0].value);
      MembersTrichotomy(a[1..], b[1..]);
    }
  }

  lemma KeyTrichotomy(k: Bytes, l: Bytes)
    ensures ExactlyOne(BytesLess(k, l), k == l, BytesLess(l, k))
  {
    BytesLessTotal(k, l);
    BytesLessIrreflexive(k);
    if BytesLess(k, l) {
      BytesLessAsymmetric(k, l);
    }
  }

  /** What three relations chained through a middle value must satisfy. */
  ghost predicate Chains(lab: bool, eab: bool, lbc: bool, ebc: bool, lac: bool, eac: bool) {
    && (lab && lbc ==> lac)
    && (eab && lbc ==> lac)
    && (lab && ebc ==> lac)
    && (eab && ebc ==> eac)
  }

  /** `<` is transitive, `==` is transitive, and `<` does not tell equal values apart. */
  lemma {:induction false} Transitivity(a: Json, b: Json, c: Json)
    ensures Chains(Less(a, b), Eq(a, b), Less(b, c), Eq(b, c), Less(a, c), Eq(a, c))
    decreases a
  {
    if a.Str? && b.Str? && c.Str? {
      if BytesLess(a.s, b.s) && BytesLess(b.s, c.s) {
        BytesLessTransitive(a.s, b.s, c.s);
      }
    } else if a.Arr? && b.Arr? && c.Arr? {
      ItemsTransitivity(a.items, b.items, c.items);
    } else if a.Obj? && b.Obj? && c.Obj? {
      MembersTransitivity(a.members, b.members, c.members);
    }
  }

  lemma {:induction false} ItemsTransitivity(a: seq<Json>, b: seq<Json>, c: seq<Json>)
    ensures Chains(ItemsLess(a, b), ItemsEq(a, b), ItemsLess(b, c), ItemsEq(b, c), ItemsLess(a, c), ItemsEq(a, c))
    decreases a
  {
    if a != [] && b != [] && c != [] {
      Transitivity(a[0], b[0], c[0]);
      Trichotomy(a[0], b[0]);
      Trichotomy(b[0], c[0]);
      Trichotomy(a[0], c[0]);
      ItemsTransitivity(a[1..], b[1..], c[1..]);
    }
  }

  lemma {:induction false} MembersTransitivity(a: seq<Member>, b: seq<Member>, c: seq<Member>)
    ensures Chains(MembersLess(a, b), MembersEq(a, b), MembersLess(b, c), MembersEq(b, c), MembersLess(a, c), MembersEq(a, c))
    decreases a
  {
    if a != [] && b != [] && c != [] {
      var x, y, z := a[0], b[0], c[0];
      if BytesLess(x.key, y.key) && BytesLess(y.key, z.key) {
        BytesLessTransitive(x.key, y.key, z.key);
      }
      KeyTrichotomy(x.key, y.key);
      KeyTrichotomy(y.key, z.key);
      KeyTrichotomy(x.key, z.key);
      Transitivity(x.value, y.value, z.value);
      Trichotomy(x.value, y.value);
      Trichotomy(y.value, z.value);
      Trichotomy(x.value, z.value);
      MembersTransitivity(a[1..], b[1..], c[1..]);
    }
  }

  // ---- What the order says ---------------------------------------------------------------------------------

  /** `a` ends at `k`, or has the smaller byte there, and agrees with `b` before. */
  ghost predicate BytesSmallerAt(a: Bytes, b: Bytes, k: nat) {
    k <= |a| && k < |b| && a[..k] == b[..k] && (k < |a| ==> a[k] < b[k])
  }

  ghost predicate ItemsSmallerAt(a: seq<Json>, b: seq<Json>, k: nat) {
    k <= |a| && k < |b| && (forall j :: 0 <= j < k ==> Eq(a[j], b[j])) && (k < |a| ==> Less(a[k], b[k]))
  }

  ghost predicate EntryEq(x: Member, y: Member) {
    x.key == y.key && Eq(x.value, y.value)
  }

  ghost predicate EntryLess(x: Member, y: Member) {
    BytesLess(x.key, y.key) || (x.key == y.key && Less(x.value, y.value))
  }

  ghost predicate MembersSmallerAt(a: seq<Member>, b: seq<Member>, k: nat) {
    k <= |a| && k < |b| && (forall j :: 0 <= j < k ==> EntryEq(a[j], b[j])) && (k < |a| ==> EntryLess(a[k], b[k]))
  }

  lemma FirstBytesAgree(a: Bytes, b: Bytes)
    requires a != [] && b != []
    ensures forall k: nat :: BytesSmallerAt(a, b, k) && k > 0 ==> a[0] == b[0]
  {
    forall k: nat | BytesSmallerAt(a, b, k) && k > 0 ensures a[0] == b[0] {
      assert a[..k][0] == a[0] && b[..k][0] == b[0];
    }
  }

  /** Byte strings compare by the first difference; a proper prefix is smaller. */
  lemma {:induction false} BytesOrder(a: Bytes, b: Bytes)
    ensures BytesLess(a, b) <==> exists k: nat :: BytesSmallerAt(a, b, k)
  {
    if a == [] || b == [] || a[0] != b[0] {
      assert b != [] ==> a == [] || a[0] < b[0] ==> BytesSmallerAt(a, b, 0);
      if a != [] && b != [] {
        FirstBytesAgree(a, b);
      }
    } else {
      BytesOrder(a[1..], b[1..]);
      if k: nat :| BytesSmallerAt(a[1..], b[1..], k) {
        assert a[..k + 1] == [a[0]] + a[1..][..k] && b[..k + 1] == [b[0]] + b[1..][..k];
        assert BytesSmallerAt(a, b, k + 1);
      }
      if k: nat :| BytesSmallerAt(a, b, k) {
        assert k > 0;
        assert a[1..][..k - 1] == a[..k][1..] && b[1..][..k - 1] == b[..k][1..];
        assert BytesSmallerAt(a[1..], b[1..], k - 1);
      }
    }
  }

  /** Arrays compare by the first element that differs; a proper prefix is smaller. */
  lemma {:induction false} ItemsOrder(a: seq<Json>, b: seq<Json>)
    ensures ItemsLess(a, b) <==> exists k: nat :: ItemsSmallerAt(a, b, k)
    decreases |a|
  {
    hide Less, Eq;
    if a == [] || b == [] {
      assert b != [] ==> ItemsSmallerAt(a, b, 0);
    } else {
      Trichotomy(a[0], b[0]);
      ItemsOrder(a[1..], b[1..]);
      assert Less(a[0], b[0]) ==> ItemsSmallerAt(a, b, 0);
      if k: nat :| ItemsSmallerAt(a[1..], b[1..], k) {
        if Eq(a[0], b[0]) {
          assert forall j :: 0 < j < k + 1 ==> a[j] == a[1..][j - 1] && b[j] == b[1..][j - 1];
          assert ItemsSmallerAt(a, b, k + 1);
        }
      }
      if k: nat :| ItemsSmallerAt(a, b, k) {
        if k > 0 {
          assert Eq(a[0], b[0]);
          assert ItemsSmallerAt(a[1..], b[1..], k - 1);
        }
      }
    }
  }

  lemma EntryTrichotomy(x: Member, y: Member)
    ensures ExactlyOne(EntryLess(x, y), EntryEq(x, y), EntryLess(y, x))
  {
    hide Less, Eq;
    KeyTrichotomy(x.key, y.key);
    Trichotomy(x.value, y.value);
  }

  lemma MembersLessStep(a: seq<Member>, b: seq<Member>)
    requires a != [] && b != []
    ensures MembersLess(a, b) <==> EntryLess(a[0], b[0]) || (EntryEq(a[0], b[0]) && MembersLess(a[1..], b[1..]))
  {
    hide Less, Eq;
    KeyTrichotomy(a[0].key, b[0].key);
    Trichotomy(a[0].value, b[0].value);
  }

  /** Objects compare by the first entry that differs, keys before values; a proper prefix is smaller. */
  lemma {:induction false} MembersOrder(a: seq<Member>, b: seq<Member>)
    ensures MembersLess(a, b) <==> exists k: nat :: MembersSmallerAt(a, b, k)
    decreases |a|
  {
    if a == [] || b == [] {
      assert b != [] ==> MembersSmallerAt(a, b, 0);
    } else {
      hide MembersLess, EntryLess, EntryEq;
      MembersLessStep(a, b);
      EntryTrichotomy(a[0], b[0]);
      MembersOrder(a[1..], b[1..]);
      assert EntryLess(a[0], b[0]) ==> MembersSmallerAt(a, b, 0);
      if k: nat :| MembersSmallerAt(a[1..], b[1..], k) {
        if EntryEq(a[0], b[0]) {
          assert forall j :: 0 < j < k + 1 ==> a[j] == a[1..][j - 1] && b[j] == b[1..][j - 1];
          assert MembersSmallerAt(a, b, k + 1);
        }
      }
      if k: nat :| MembersSmallerAt(a, b, k) {
        if k > 0 {
          assert EntryEq(a[0], b[0]);
          assert MembersSmallerAt(a[1..], b[1..], k - 1);
        }
      }
    }
  }

  ghost predicate IsNumber(v: Json) {
    v.Int? || v.Double?
  }

  /** Null, numbers, booleans, strings, arrays and objects, in this order, and how each kind compares. */
  lemma OrderMeaning(a: Json, b: Json)
    ensures a.Null? ==> (Less(a, b) <==> !b.Null?)
    ensures IsNumber(a) && !IsNumber(b) ==> (Less(a, b) <==> !b.Null?)
    ensures a.Bool? && !b.Bool? ==> (Less(a, b) <==> b.Str? || b.Arr? || b.Obj?)
    ensures a.Str? && !b.Str? ==> (Less(a, b) <==> b.Arr? || b.Obj?)
    ensures a.Arr? && !b.Arr? ==> (Less(a, b) <==> b.Obj?)
    ensures a.Obj? && !b.Obj? ==> !Less(a, b)
    ensures a.Int? && b.Int? ==> (Less(a, b) <==> a.n < b.n)
    ensures a.Double? && b.Double? ==> (Less(a, b) <==> a.d < b.d)
    ensures a.Int? && b.Double? ==> (Less(a, b) <==> a.n as real < b.d)
    ensures a.Double? && b.Int? ==> (Less(a, b) <==> a.d < b.n as real)
    ensures a.Bool? && b.Bool? ==> (Less(a, b) <==> !a.b && b.b)
    ensures a.Str? && b.Str? ==> (Less(a, b) <==> exists k: nat :: BytesSmallerAt(a.s, b.s, k))
    ensures a.Arr? && b.Arr? ==> (Less(a, b) <==> exists k: nat :: ItemsSmallerAt(a.items, b.items, k))
    ensures a.Obj? && b.Obj? ==> (Less(a, b) <==> exists k: nat :: MembersSmallerAt(a.members, b.members, k))
  {
    hide BytesLess, ItemsLess, MembersLess, BytesSmallerAt, ItemsSmallerAt, MembersSmallerAt;
    if a.Str? && b.Str? {
      BytesOrder(a.s, b.s);
    } else if a.Arr? && b.Arr? {
      ItemsOrder(a.items, b.items);
    } else if a.Obj? && b.Obj? {
      MembersOrder(a.members, b.members);
    }
  }
}
