/** The subnet configuration: src/configuration.cpp checks and fills it, src/daemon.cpp uses it.
    Addresses are kept in host order; `StoredTestAgrees` covers the network-order words of the source. */
module SubnetConfig {
  import opened Wrappers
  import opened Bytes
  import opened Options

  const DEFAULT_LEASE_TIME: uint32 := 3600

  /** A six-octet Ethernet address. */
  type EtherAddr = s: seq<byte> | |s| == 6 witness seq(6, i => 0)

  datatype Config = Config(
    subnetAddress: uint32, rangeStart: uint32, rangeEnd: uint32, netmask: uint32,
    leaseTime: uint32,
    fixedHosts: map<EtherAddr, uint32>,
    definedOptions: OptionMap)
  {
    predicate InSubnet(address: uint32) {
      InNet(address, netmask, subnetAddress)
    }

    /** What `parse_configuration` leaves behind when it does not throw. */
    predicate WellConfigured() {
      && InSubnet(rangeStart) && InSubnet(rangeEnd)
      && (forall k :: k in fixedHosts ==> InSubnet(fixedHosts[k]))
      && SUBNET_MASK in definedOptions && definedOptions[SUBNET_MASK] == BigEndian(netmask, 4)
      && LEASE_TIME in definedOptions && definedOptions[LEASE_TIME] == BigEndian(leaseTime, 4)
    }
  }

  predicate InNet(address: nat, mask: nat, net: nat) {
    BitAnd(address, mask) == BitAnd(net, mask)
  }

  /** The comparison as the source writes it, on words in network order. */
  predicate InNetAsStored(e: Endian, address: uint32, mask: uint32, net: uint32) {
    BitAnd(HostToNet(e, address, 4), HostToNet(e, mask, 4)) == BitAnd(HostToNet(e, net, 4), HostToNet(e, mask, 4))
  }

  lemma StoredTestAgrees(e: Endian, address: uint32, mask: uint32, net: uint32)
    ensures InNetAsStored(e, address, mask, net) <==> InNet(address, mask, net)
  {
    SwapCommutesWithAnd(e, address, mask);
    SwapCommutesWithAnd(e, net, mask);
    AndAtMost(address, mask);
    AndAtMost(net, mask);
    WordBounds();
    SwapTwice(e, BitAnd(address, mask), 4);
    SwapTwice(e, BitAnd(net, mask), 4);
  }

  // ---- parse_configuration ----

  /** One entry of the hosts list; `None` is a text that libc could not convert. */
  datatype HostEntry = HostEntry(ether: Option<EtherAddr>, address: Option<uint32>)

  datatype Declaration = Declaration(
    subnetAddress: uint32, rangeStart: uint32, rangeEnd: uint32, netmask: uint32,
    leaseTime: Option<uint32>, hosts: seq<HostEntry>, options: OptionMap)

  /** The entry survives the filters of `parse_hosts` and fixes an address for `k`. */
  predicate Fixes(h: HostEntry, k: EtherAddr, mask: uint32, net: uint32) {
    h.ether == Some(k) && h.address.Some? && InNet(h.address.value, mask, net)
  }

  ghost predicate LastFix(hosts: seq<HostEntry>, i: int, k: EtherAddr, mask: uint32, net: uint32) {
    && 0 <= i < |hosts| && Fixes(hosts[i], k, mask, net)
    && forall j :: i < j < |hosts| ==> !Fixes(hosts[j], k, mask, net)
  }

  /** `fixed` maps exactly the Ethernet addresses with a usable entry, each to its last one. */
  ghost predicate FixedBy(fixed: map<EtherAddr, uint32>, hosts: seq<HostEntry>, mask: uint32, net: uint32) {
    && (forall i, k :: 0 <= i < |hosts| && Fixes(hosts[i], k, mask, net) ==> k in fixed)
    && (forall k :: k in fixed ==> exists i :: LastFix(hosts, i, k, mask, net) && fixed[k] == hosts[i].address.value)
  }

  lemma SkippedEntryKeepsLast(hosts: seq<HostEntry>, n: nat, mask: uint32, net: uint32)
    requires n < |hosts|
    ensures forall i, k :: LastFix(hosts[..n], i, k, mask, net) && !Fixes(hosts[n], k, mask, net)
              ==> LastFix(hosts[..n + 1], i, k, mask, net)
  {
  }

  /** The list decides entry by entry: an empty one fixes nothing, an entry with both parts inside the
      subnet overrides what was fixed for its Ethernet address, and any other changes nothing. */
  lemma LastHostDecides(hosts: seq<HostEntry>, h: HostEntry, mask: uint32, net: uint32, before: map<EtherAddr, uint32>)
    requires FixedBy(before, hosts, mask, net)
    ensures FixedBy(map[], [], mask, net)
    ensures h.ether.Some? && h.address.Some? && BitAnd(h.address.value, mask) == BitAnd(net, mask) ==>
              FixedBy(before[h.ether.value := h.address.value], hosts + [h], mask, net)
    ensures !(h.ether.Some? && h.address.Some? && BitAnd(h.address.value, mask) == BitAnd(net, mask)) ==>
              FixedBy(before, hosts + [h], mask, net)
  {
    var longer, n := hosts + [h], |hosts|;
    assert longer[..n] == hosts && longer[..n + 1] == longer;
    SkippedEntryKeepsLast(longer, n, mask, net);
    if h.ether.Some? && h.address.Some? && BitAnd(h.address.value, mask) == BitAnd(net, mask) {
      var k := h.ether.value;
      var after := before[k := h.address.value];
      assert LastFix(longer, n, k, mask, net);
      forall j | j in after && j != k
        ensures exists i :: LastFix(longer, i, j, mask, net) && after[j] == longer[i].address.value
      {
        var i :| LastFix(hosts, i, j, mask, net) && before[j] == hosts[i].address.value;
        assert LastFix(longer, i, j, mask, net);
      }
    }
  }

  /** At most one map is fixed by a list. */
  lemma FixedByIsUnique(a: map<EtherAddr, uint32>, b: map<EtherAddr, uint32>, hosts: seq<HostEntry>, mask: uint32, net: uint32)
    requires FixedBy(a, hosts, mask, net) && FixedBy(b, hosts, mask, net)
    ensures a == b
  {
    FixedByIncluded(a, b, hosts, mask, net);
    FixedByIncluded(b, a, hosts, mask, net);
  }

  lemma FixedByIncluded(a: map<EtherAddr, uint32>, b: map<EtherAddr, uint32>, hosts: seq<HostEntry>, mask: uint32, net: uint32)
    requires FixedBy(a, hosts, mask, net) && FixedBy(b, hosts, mask, net)
    ensures forall k :: k in a ==> k in b && b[k] == a[k]
  {
    forall k | k in a
      ensures k in b && b[k] == a[k]
    {
      var i :| LastFix(hosts, i, k, mask, net) && a[k] == hosts[i].address.value;
      assert Fixes(hosts[i], k, mask, net);
      var j :| LastFix(hosts, j, k, mask, net) && b[k] == hosts[j].address.value;
      assert i == j;
    }
  }

  /** `parse_hosts`: unusable entries and addresses outside the subnet are skipped, a repeated
      Ethernet address takes the last usable entry. */
  method ParseHosts(hosts: seq<HostEntry>, mask: uint32, net: uint32) returns (fixed: map<EtherAddr, uint32>)
    ensures FixedBy(fixed, hosts, mask, net)
  {
    fixed := map[];
    for n := 0 to |hosts|
      invariant FixedBy(fixed, hosts[..n], mask, net)
    {
      SkippedEntryKeepsLast(hosts, n, mask, net);
      if hosts[n].ether.None? || hosts[n].address.None? {
        continue;
      }
      if BitAnd(hosts[n].address.value, mask) != BitAnd(net, mask) {
        continue;
      }
      ghost var before := fixed;
      fixed := fixed[hosts[n].ether.value := hosts[n].address.value];
      forall k | k in fixed
        ensures exists i :: LastFix(hosts[..n + 1], i, k, mask, net) && fixed[k] == hosts[i].address.value
      {
        if k == hosts[n].ether.value {
          assert LastFix(hosts[..n + 1], n, k, mask, net);
        } else {
          var i :| LastFix(hosts[..n], i, k, mask, net) && before[k] == hosts[i].address.value;
          assert LastFix(hosts[..n + 1], i, k, mask, net);
        }
      }
    }
    assert hosts[..|hosts|] == hosts;
  }

  /** `check_net_range` and the tail of `parse_configuration`; `None` is the `invalid_argument`.
      The order of the two range ends is not checked. */
  method Configure(decl: Declaration) returns (r: Option<Config>)
    ensures r.Some? <==> InNet(decl.rangeStart, decl.netmask, decl.subnetAddress)
                         && InNet(decl.rangeEnd, decl.netmask, decl.subnetAddress)
    ensures r.Some? ==> r.value.WellConfigured()
    ensures r.Some? ==>
              && r.value.subnetAddress == decl.subnetAddress && r.value.netmask == decl.netmask
              && r.value.rangeStart == decl.rangeStart && r.value.rangeEnd == decl.rangeEnd
              && r.value.leaseTime == (if decl.leaseTime.Some? then decl.leaseTime.value else 3600)
              && FixedBy(r.value.fixedHosts, decl.hosts, decl.netmask, decl.subnetAddress)
              && r.value.definedOptions == decl.options[1 := BigEndian(decl.netmask, 4)][51 := BigEndian(r.value.leaseTime, 4)]
  {
    var netmasked := BitAnd(decl.subnetAddress, decl.netmask);
    if BitAnd(decl.rangeStart, decl.netmask) != netmasked {
      return None;
    }
    if BitAnd(decl.rangeEnd, decl.netmask) != netmasked {
      return None;
    }
    var fixed := ParseHosts(decl.hosts, decl.netmask, decl.subnetAddress);
    var defined := decl.options;
    var maskBytes := NumberToByteVector(decl.netmask, 4);
    defined := defined[SUBNET_MASK := maskBytes];
    var leaseTime := DEFAULT_LEASE_TIME;
    if decl.leaseTime.Some? {
      leaseTime := decl.leaseTime.value;
    }
    var leaseBytes := NumberToByteVector(leaseTime, 4);
    defined := defined[LEASE_TIME := leaseBytes];
    r := Some(Config(decl.subnetAddress, decl.rangeStart, decl.rangeEnd, decl.netmask, leaseTime, fixed, defined));
  }

  // ---- checking two ends is checking a range, exactly for prefix masks ----

  /** A CIDR prefix mask: ones above zeros. */
  ghost predicate PrefixMask(mask: nat, width: nat) {
    exists k :: 0 <= k <= width && mask == Pow2(width) - Pow2(k)
  }

  /** Every address between two addresses of the subnet is in the subnet. */
  ghost predicate Convex(mask: nat, net: nat, width: nat) {
    forall s: nat, x: nat, e: nat ::
      s <= x <= e < Pow2(width) && InNet(s, mask, net) && InNet(e, mask, net) ==> InNet(x, mask, net)
  }

  lemma RangeCheckCoversRange(mask: nat, net: nat, width: nat)
    requires mask < Pow2(width) && net < Pow2(width)
    ensures Convex(mask, net, width) <==> PrefixMask(mask, width)
  {
    if PrefixMask(mask, width) {
      var k :| 0 <= k <= width && mask == Pow2(width) - Pow2(k);
      forall s: nat, x: nat, e: nat | s <= x <= e < Pow2(width) && InNet(s, mask, net) && InNet(e, mask, net)
        ensures InNet(x, mask, net)
      {
        AndPrefixMask(s, width, k);
        AndPrefixMask(x, width, k);
        AndPrefixMask(e, width, k);
        SameBlock(s, x, e, Pow2(k));
      }
    } else {
      var s, x, e := MaskWithGapLeaks(mask, net, width);
    }
  }

  lemma {:induction false} Pow2Monotone(k: nat, n: nat)
    requires k <= n
    ensures Pow2(k) <= Pow2(n)
  {
    if k < n {
      Pow2Monotone(k, n - 1);
    }
  }

  lemma {:induction false} AndPrefixMask(a: nat, n: nat, k: nat)
    requires a < Pow2(n) && k <= n
    ensures Pow2(k) <= Pow2(n)
    ensures BitAnd(a, Pow2(n) - Pow2(k)) == a - a % Pow2(k)
  {
    Pow2Monotone(k, n);
    if k == 0 {
      AndLowBits(a, n);
      SmallMod(a, Pow2(n));
    } else {
      Pow2Monotone(k - 1, n - 1);
      AndPrefixMask(a / 2, n - 1, k - 1);
      assert Pow2(n) - Pow2(k) == 2 * (Pow2(n - 1) - Pow2(k - 1));
      AndDoubledMask(a, Pow2(n - 1) - Pow2(k - 1), Pow2(k - 1));
    }
  }

  /** For a prefix mask the test compares the bits in front, whatever follows them. */
  lemma PrefixTest(a: nat, net: nat, width: nat, k: nat)
    requires a < Pow2(width) && net < Pow2(width) && k <= width
    ensures Pow2(k) <= Pow2(width)
    ensures InNet(a, Pow2(width) - Pow2(k), net) <==> a / Pow2(k) == net / Pow2(k)
  {
    AndPrefixMask(a, width, k);
    AndPrefixMask(net, width, k);
    BlockStart(a, net, Pow2(k));
  }

  lemma BlockStart(a: nat, b: nat, p: nat)
    requires p > 0
    ensures a - a % p == b - b % p <==> a / p == b / p
  {
    assert a == p * (a / p) + a % p && b == p * (b / p) + b % p;
    if a / p < b / p {
      MulGap(p, a / p, b / p);
    } else if b / p < a / p {
      MulGap(p, b / p, a / p);
    }
  }

  lemma AndDoubledMask(a: nat, m: nat, p: nat)
    requires p > 0 && BitAnd(a / 2, m) == a / 2 - a / 2 % p
    ensures BitAnd(a, 2 * m) == a - a % (2 * p)
  {
    AndHalvesOf(a, 2 * m, a / 2, m);
    ModDouble(a, p);
  }

  lemma SmallMod(a: nat, m: nat)
    requires a < m
    ensures a % m == a
  {
  }

  lemma SameBlock(s: nat, x: nat, e: nat, p: nat)
    requires p > 0 && s <= x <= e && s - s % p == e - e % p
    ensures x - x % p == s - s % p
  {
    var q := s / p;
    assert s == p * q + s % p;
    assert x == p * q + (x - p * q) && 0 <= x - p * q;
    assert e - p * q == e % p;
    QuotientUnique(x, p, q, x - p * q);
  }

  lemma {:induction false} AndIdempotent(a: nat, m: nat)
    ensures BitAnd(BitAnd(a, m), m) == BitAnd(a, m)
  {
    if a != 0 && m != 0 {
      AndIdempotent(a / 2, m / 2);
      AndHalves(a, m);
      AndHalves(BitAnd(a, m), m);
    }
  }

  /** Setting all the bits outside the mask does not leave the subnet. */
  lemma {:induction false} AndFilled(a: nat, m: nat, n: nat)
    requires a < Pow2(n) && m < Pow2(n)
    ensures BitAnd(BitAnd(a, m) + (Pow2(n) - 1 - m), m) == BitAnd(a, m)
    ensures BitAnd(a, m) + (Pow2(n) - 1 - m) < Pow2(n)
  {
    if n > 0 {
      AndFilled(a / 2, m / 2, n - 1);
      AndHalves(a, m);
      var filled := BitAnd(a, m) + (Pow2(n) - 1 - m);
      AndHalvesOf(filled, m, BitAnd(a / 2, m / 2) + (Pow2(n - 1) - 1 - m / 2), m / 2);
    }
  }

  /** A zero bit above a one bit lets an address slip out between two addresses of the subnet. */
  lemma {:induction false} MaskWithGapLeaks(mask: nat, net: nat, n: nat) returns (s: nat, x: nat, e: nat)
    requires mask < Pow2(n) && net < Pow2(n) && !PrefixMask(mask, n)
    ensures s <= x <= e < Pow2(n) && InNet(s, mask, net) && InNet(e, mask, net) && !InNet(x, mask, net)
  {
    assert mask == Pow2(n) - Pow2(0) ==> PrefixMask(mask, n);
    if n == 0 {
      assert false;
    } else if mask % 2 == 1 {
      s, x, e := LowBitLeaks(mask, net, n);
    } else {
      if PrefixMask(mask / 2, n - 1) {
        HalfMask(mask, n);
      }
      var s', x', e' := MaskWithGapLeaks(mask / 2, net / 2, n - 1);
      s, x, e := 2 * s', 2 * x', 2 * e';
      DoubledInNet(s', mask, net);
      DoubledInNet(x', mask, net);
      DoubledInNet(e', mask, net);
    }
  }

  lemma HalfMask(mask: nat, n: nat)
    requires n > 0 && mask % 2 == 0 && PrefixMask(mask / 2, n - 1)
    ensures PrefixMask(mask, n)
  {
    var k :| 0 <= k <= n - 1 && mask / 2 == Pow2(n - 1) - Pow2(k);
    assert mask == Pow2(n) - Pow2(k + 1);
  }

  lemma DoubledInNet(a: nat, mask: nat, net: nat)
    requires mask % 2 == 0
    ensures InNet(2 * a, mask, net) <==> InNet(a, mask / 2, net / 2)
  {
    AndHalvesOf(2 * a, mask, a, mask / 2);
    AndHalves(net, mask);
  }

  lemma LowBitLeaks(mask: nat, net: nat, n: nat) returns (s: nat, x: nat, e: nat)
    requires mask < Pow2(n) - 1 && net < Pow2(n) && mask % 2 == 1
    ensures s <= x <= e < Pow2(n) && InNet(s, mask, net) && InNet(e, mask, net) && !InNet(x, mask, net)
  {
    s := BitAnd(net, mask);
    x := s + 1;
    e := s + (Pow2(n) - 1 - mask);
    AndIdempotent(net, mask);
    AndFilled(net, mask, n);
    AndHalves(x, mask);
    AndHalves(s, mask);
  }
}
