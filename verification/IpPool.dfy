/** The UPF's address pool: the allocation loop and the strings it renders. */
module IpPool {
  import opened Decimal
  import opened Characters
  import opened Splitting

  const PREFIX: Bytes := [49, 55, 50, 46, 49, 54, 46]
  const DOT: byte := 46
  const FIRST_IMSI: nat := 119_000_000_000

  function Render(subnet: nat, host: nat): Bytes {
    PREFIX + ToDec(subnet) + [DOT] + ToDec(host)
  }

  /** The address of UE number `i`. */
  function Address(i: nat): Bytes {
    Render(1 + i / 252, 3 + i % 252)
  }

  // ---- What the texts say -----------------------------------------------------------------------------------

  /** A text of numbers separated by dots. */
  predicate IsDotted(text: Bytes) {
    forall part :: part in Split(text, Code('.')) ==> IsNumber(part)
  }

  /** The numbers between the dots of a text. */
  function Octets(text: Bytes): seq<int> {
    var parts := Split(text, Code('.'));
    seq(|parts|, k requires 0 <= k < |parts| => NumberOf(parts[k]))
  }

  lemma NumbersHaveNoDot(n: nat)
    ensures Split(ToDec(n), Code('.')) == [ToDec(n)]
  {
    hide ToDec, Split;
    ReadsToDec(n);
    FirstSplit(ToDec(n), Code('.'));
  }

  /** One more number in front. */
  lemma NumberInFront(n: nat, rest: Bytes)
    ensures Split(ToDec(n) + ([Code('.')] + rest), Code('.')) == [ToDec(n)] + Split(rest, Code('.'))
  {
    hide ToDec, Split;
    NumbersHaveNoDot(n);
    SplitAt(ToDec(n), Code('.'), rest);
  }

  lemma PrefixText()
    ensures PREFIX == ToDec(172) + ([Code('.')] + (ToDec(16) + [Code('.')]))
  {
    ToDecDigit(1);
    ToDecLast(1, 7);
    ToDecLast(17, 2);
    ToDecLast(1, 6);
  }

  /** The rendered text reads as 172.16, the subnet and the host, and nothing else. */
  lemma RenderedOctets(subnet: nat, host: nat)
    ensures IsDotted(Render(subnet, host)) && Octets(Render(subnet, host)) == [172, 16, subnet, host]
  {
    hide ToDec, Split, NumberOf, IsNumber;
    var dot := [Code('.')];
    var last := ToDec(subnet) + (dot + ToDec(host));
    PrefixText();
    assert Render(subnet, host) == ToDec(172) + (dot + (ToDec(16) + (dot + last)));
    NumberInFront(172, ToDec(16) + (dot + last));
    NumberInFront(16, last);
    NumberInFront(subnet, ToDec(host));
    NumbersHaveNoDot(host);
    ReadsToDec(172);
    ReadsToDec(16);
    ReadsToDec(subnet);
    ReadsToDec(host);
  }

  lemma AddressOctets(i: nat)
    ensures IsDotted(Address(i)) && Octets(Address(i)) == [172, 16, 1 + i / 252, 3 + i % 252]
  {
    RenderedOctets(1 + i / 252, 3 + i % 252);
  }

  /** The address of UE number `i` is 172.16, its subnet and its host. */
  predicate ReadsAs(addrs: map<nat, Bytes>, i: nat) {
    && FIRST_IMSI + i in addrs && IsDotted(addrs[FIRST_IMSI + i])
    && Octets(addrs[FIRST_IMSI + i]) == [172, 16, 1 + i / 252, 3 + i % 252]
  }

  /** `set_ip_addrs` for a pool of `count` UEs. */
  method SetIpAddrs(count: nat) returns (addrs: map<nat, Bytes>)
    ensures forall imsi :: imsi in addrs <==> FIRST_IMSI <= imsi < FIRST_IMSI + count
    ensures forall i :: 0 <= i < count ==> addrs[FIRST_IMSI + i] == Address(i)
    ensures forall i: nat :: i < count ==> ReadsAs(addrs, i)
  {
    hide IsDotted, Octets, Split, NumberOf;
    addrs := map[];
    var subnet, host := 1, 3;
    for i := 0 to count
      invariant subnet == 1 + i / 252 && host == 3 + i % 252
      invariant forall imsi :: imsi in addrs <==> FIRST_IMSI <= imsi < FIRST_IMSI + i
      invariant forall k :: 0 <= k < i ==> addrs[FIRST_IMSI + k] == Address(k)
    {
      addrs := addrs[FIRST_IMSI + i := Render(subnet, host)];
      if host == 254 {
        subnet := subnet + 1;
        host := 3;
      } else {
        host := host + 1;
      }
    }
    forall i: nat | i < count ensures ReadsAs(addrs, i) {
      assert addrs[FIRST_IMSI + i] == Address(i);
      AddressOctets(i);
    }
  }

  /** The dot separates the octets: two digit strings joined by it can be told apart. */
  lemma DotSplits(a: Bytes, b: Bytes, c: Bytes, d: Bytes)
    requires AllDigits(a) && AllDigits(c) && a + [DOT] + b == c + [DOT] + d
    ensures a == c && b == d
  {
    var s := a + [DOT] + b;
    var s' := c + [DOT] + d;
    assert s[|a|] == DOT && s'[|c|] == DOT;
    assert |a| < |c| ==> IsDigit(s'[|a|]);
    assert |c| < |a| ==> IsDigit(s[|c|]);
    assert a == s[..|a|] == c;
    assert b == s[|a| + 1..] == d;
  }

  lemma RenderInjective(m: nat, h: nat, m': nat, h': nat)
    requires Render(m, h) == Render(m', h')
    ensures m == m' && h == h'
  {
    hide ToDec;
    var n := |PREFIX|;
    assert Render(m, h)[n..] == ToDec(m) + [DOT] + ToDec(h);
    assert Render(m', h')[n..] == ToDec(m') + [DOT] + ToDec(h');
    DotSplits(ToDec(m), ToDec(h), ToDec(m'), ToDec(h'));
    ToDecInjective(m, m');
    ToDecInjective(h, h');
  }

  /** Distinct UEs have distinct addresses, none of them the empty string. */
  lemma AddressInjective(i: nat, j: nat)
    requires Address(i) == Address(j)
    ensures i == j
    ensures Address(i) != []
  {
    RenderInjective(1 + i / 252, 3 + i % 252, 1 + j / 252, 3 + j % 252);
  }

  /**
   * The octets of an address: all are at most 255 exactly for the first 64260 UEs, and none is in
   * subnet 172.16.0.
   */
  lemma OctetsInRange(i: nat)
    ensures |Octets(Address(i))| == 4
    ensures (forall k :: 0 <= k < 4 ==> 0 <= Octets(Address(i))[k] <= 255) <==> i < 64260
    ensures Octets(Address(i))[2] != 0 && 3 <= Octets(Address(i))[3] <= 254
  {
    hide Render, IsDotted, Octets;
    AddressOctets(i);
    var o := Octets(Address(i));
    assert o[0] == 172 && o[1] == 16 && o[2] == 1 + i / 252 && o[3] == 3 + i % 252;
  }
}
