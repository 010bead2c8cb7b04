/** The lease table `_active_leases` and the two ways to look for a free address in it. */
module Leases {
  import opened Wrappers
  import opened Bytes
  import opened DhcpDatagram

  datatype Lease = Lease(address: uint32, expiry: uint64)

  type Table = map<HwAddr, Lease>

  const ZERO_HWADDR: HwAddr := [0, 0, 0, 0, 0, 0, 0, 0, 0, 0, 0, 0, 0, 0, 0, 0]

  // ---- the key order of std::map: arrays compare lexicographically ----

  /** Byte arrays of one length compare like the numbers they spell. */
  predicate AtMost(a: HwAddr, b: HwAddr) {
    FromBigEndian(a) <= FromBigEndian(b)
  }

  lemma {:induction false} SmallerByteDecides(a: seq<byte>, b: seq<byte>, i: nat)
    requires |a| == |b| && i < |a| && a[..i] == b[..i] && a[i] < b[i]
    ensures FromBigEndian(a) < FromBigEndian(b)
  {
    var n := |a| - 1;
    if i < n {
      assert a[..n][..i] == a[..i] && b[..n][..i] == b[..i];
      SmallerByteDecides(a[..n], b[..n], i);
    }
  }

  /** At the first byte in which the two differ, `a` has the smaller one. */
  ghost predicate Before(a: HwAddr, b: HwAddr) {
    exists i :: 0 <= i < 16 && a[..i] == b[..i] && a[i] < b[i]
  }

  lemma {:induction false} FirstDifference(a: seq<byte>, b: seq<byte>) returns (i: nat)
    requires |a| == |b| && a != b
    ensures i < |a| && a[..i] == b[..i] && a[i] != b[i]
  {
    if a[0] != b[0] {
      i := 0;
    } else {
      assert a == [a[0]] + a[1..] && b == [b[0]] + b[1..];
      i := FirstDifference(a[1..], b[1..]);
      i := i + 1;
      assert a[..i] == [a[0]] + a[1..][..i - 1] && b[..i] == [b[0]] + b[1..][..i - 1];
    }
  }

  /** The order the map is kept in is the lexicographic one, byte by byte from the front. */
  lemma OrderIsLexicographic(a: HwAddr, b: HwAddr)
    ensures AtMost(a, b) <==> a == b || Before(a, b)
    ensures Before(a, b) ==> !AtMost(b, a)
  {
    if i :| 0 <= i < 16 && a[..i] == b[..i] && a[i] < b[i] {
      SmallerByteDecides(a, b, i);
    } else if a != b {
      var i := FirstDifference(a, b);
      SmallerByteDecides(b, a, i);
    }
  }

  lemma OrderIsAntisymmetric(a: HwAddr, b: HwAddr)
    requires AtMost(a, b) && AtMost(b, a)
    ensures a == b
  {
    BytesRoundTrip(a);
    BytesRoundTrip(b);
  }

  predicate IsLeast(k: HwAddr, keys: set<HwAddr>) {
    k in keys && forall j :: j in keys ==> AtMost(k, j)
  }

  lemma {:induction false} LeastExists(keys: set<HwAddr>)
    requires keys != {}
    ensures exists k :: IsLeast(k, keys)
    decreases |keys|
  {
    var k :| k in keys;
    var rest := keys - {k};
    assert keys == rest + {k};
    if rest == {} {
      assert IsLeast(k, keys);
    } else {
      LeastExists(rest);
      var j :| IsLeast(j, rest);
      assert IsLeast(if AtMost(j, k) then j else k, keys);
    }
  }

  lemma LeastIsUnique(keys: set<HwAddr>)
    ensures forall a, b :: IsLeast(a, keys) && IsLeast(b, keys) ==> a == b
  {
    forall a, b | IsLeast(a, keys) && IsLeast(b, keys)
      ensures a == b
    {
      OrderIsAntisymmetric(a, b);
    }
  }

  /** Where an iteration over the map starts. */
  function Least(keys: set<HwAddr>): (k: HwAddr)
    requires keys != {}
    ensures IsLeast(k, keys)
  {
    LeastExists(keys);
    LeastIsUnique(keys);
    var k :| IsLeast(k, keys);
    k
  }

  /** An iteration starts at the key that is before all the others. */
  lemma LeastIsBeforeAll(keys: set<HwAddr>, k: HwAddr)
    requires k in keys
    ensures Least(keys) == k <==> forall j :: j in keys ==> j == k || Before(k, j)
  {
    forall j
      ensures AtMost(k, j) <==> j == k || Before(k, j)
    {
      OrderIsLexicographic(k, j);
    }
    LeastIsUnique(keys);
    assert IsLeast(k, keys) <==> forall j :: j in keys ==> AtMost(k, j);
  }

  /** The all-zero address under which declined addresses are filed comes first. */
  lemma ZeroIsLeast(keys: set<HwAddr>)
    requires ZERO_HWADDR in keys
    ensures Least(keys) == ZERO_HWADDR
  {
    ZeroSpellsZero(ZERO_HWADDR);
    OrderIsAntisymmetric(Least(keys), ZERO_HWADDR);
  }

  lemma {:induction false} ZeroSpellsZero(s: seq<byte>)
    requires forall i :: 0 <= i < |s| ==> s[i] == 0
    ensures FromBigEndian(s) == 0
  {
    if s != [] {
      ZeroSpellsZero(s[..|s| - 1]);
    }
  }

  // ---- lazy expiry ----

  function Purge(t: Table, now: uint64): Table {
    map k | k in t && t[k].expiry > now :: t[k]
  }

  lemma PurgeTwice(t: Table, now: uint64, later: uint64)
    requires now <= later
    ensures Purge(Purge(t, now), later) == Purge(t, later)
  {
  }

  predicate Held(t: Table, address: int) {
    exists k :: k in t && t[k].address == address
  }

  // ---- the search for a free address ----

  /** `AsWritten` is the loop of src/daemon.cpp, which always leaves on its first entry. `Intended`
      advances until nobody holds the candidate and fails at the end of the range. */
  datatype Scan = AsWritten | Intended

  function Successor(a: uint32): uint32 {
    (a + 1) % 0x1_0000_0000
  }

  function ScanAsWritten(t: Table, start: uint32, end: uint32): Option<uint32> {
    if t == map[] then Some(start)
    else
      var candidate := if start == t[Least(t.Keys)].address then Successor(start) else start;
      if candidate >= end then None else Some(candidate)
  }

  function FirstFree(t: Table, candidate: uint32, end: uint32): Option<uint32>
    decreases end - candidate
  {
    if candidate >= end then None
    else if Held(t, candidate) then FirstFree(t, candidate + 1, end)
    else Some(candidate)
  }

  function Search(scan: Scan, t: Table, start: uint32, end: uint32): Option<uint32> {
    if scan.AsWritten? then ScanAsWritten(t, start, end) else FirstFree(t, start, end)
  }

  /** The loop of `handle_discovery`: it walks the entries in key order, but both branches of the
      second test leave it. */
  method ScanLoop(t: Table, start: uint32, end: uint32) returns (r: Option<uint32>)
    ensures r == Search(AsWritten, t, start, end)
  {
    var candidate := start;
    var rest := t.Keys;
    var stopped := false;
    r := None;
    while rest != {} && !stopped
      invariant !stopped ==> rest == t.Keys && candidate == start && r == None
      invariant stopped ==> r == Search(AsWritten, t, start, end)
      decreases !stopped
    {
      var k := Least(rest);
      assert t != map[] && k == Least(t.Keys);
      rest := rest - {k};
      if candidate == t[k].address {
        candidate := Successor(candidate);
      }
      if candidate >= end {
        stopped := true; // return without an offer
      } else {
        r := Some(candidate);
        stopped := true; // break
      }
    }
    if !stopped {
      assert t == map[];
      r := Some(candidate);
    }
  }

  /** The repaired loop. */
  method IntendedLoop(t: Table, start: uint32, end: uint32) returns (r: Option<uint32>)
    ensures r == Search(Intended, t, start, end)
  {
    var candidate: uint32 := start;
    while candidate < end
      invariant candidate <= end || candidate == start
      invariant FirstFree(t, candidate, end) == FirstFree(t, start, end)
      decreases end - candidate
    {
      if !(exists k :: k in t && t[k].address == candidate) {
        return Some(candidate);
      }
      candidate := candidate + 1;
    }
    r := None;
  }

  /** The intended search returns the least free address of the pool, and fails exactly when every
      address of the pool is held. */
  lemma {:induction false} SearchIsComplete(t: Table, start: uint32, end: uint32)
    ensures FirstFree(t, start, end).None? <==> forall a :: start <= a < end ==> Held(t, a)
    ensures forall a :: FirstFree(t, start, end) == Some(a) <==>
              start <= a < end && !Held(t, a) && forall b :: start <= b < a ==> Held(t, b)
    decreases end - start
  {
    if start < end && Held(t, start) {
      SearchIsComplete(t, start + 1, end);
    }
  }

  /** A live table smaller than the pool always leaves a free address. */
  lemma SmallTableHasFreeAddress(t: Table, start: uint32, end: uint32)
    requires |t| < end - start
    ensures FirstFree(t, start, end).Some?
  {
    SearchIsComplete(t, start, end);
    if FirstFree(t, start, end).None? {
      var pool := Pool(start, end);
      AddressCount(t);
      forall a | a in pool
        ensures a in Addresses(t)
      {
        assert Held(t, a);
      }
      SubsetSize(pool, Addresses(t));
    }
  }

  function Addresses(t: Table): set<int> {
    set k | k in t :: t[k].address
  }

  ghost function Pool(start: int, end: int): (pool: set<int>)
    ensures forall a :: a in pool <==> start <= a < end
    ensures start <= end ==> |pool| == end - start
    decreases end - start
  {
    if start >= end then {} else Pool(start, end - 1) + {end - 1}
  }

  lemma {:induction false} AddressCount(t: Table)
    ensures |Addresses(t)| <= |t|
    decreases |t|
  {
    if t != map[] {
      var k :| k in t;
      var fewer := map j | j in t && j != k :: t[j];
      assert fewer.Keys == t.Keys - {k};
      AddressCount(fewer);
      assert Addresses(t) == Addresses(fewer) + {t[k].address} by {
        forall a | a in Addresses(t)
          ensures a in Addresses(fewer) + {t[k].address}
        {
          var j :| j in t && t[j].address == a;
          if j != k {
            assert j in fewer && fewer[j].address == a;
          }
        }
      }
    }
  }

  lemma SubsetSize(a: set<int>, b: set<int>)
    requires a <= b
    ensures |a| <= |b|
  {
    assert a + (b - a) == b;
  }

  /** The search finds something: for the intended one, some address of the pool is free; for the one
      as written, the table is empty or its candidate lies before the end of the range. */
  ghost predicate PoolAnswers(scan: Scan, t: Table, start: uint32, end: uint32) {
    if scan.Intended? then exists a :: start <= a < end && !Held(t, a)
    else t == map[] || (if t[Least(t.Keys)].address == start then Successor(start) else start) < end
  }

  lemma SearchAnswersExactlyWhen(scan: Scan, t: Table, start: uint32, end: uint32)
    ensures Search(scan, t, start, end).Some? <==> PoolAnswers(scan, t, start, end)
  {
    SearchIsComplete(t, start, end);
  }

  // ---- what the loop as written does instead ----

  /** Somebody else already holds the address the loop as written is about to return: it compares
      its candidates with the first entry of the table only. */
  predicate ScanRepeats(t: Table, start: uint32, end: uint32) {
    && t != map[]
    && (if t[Least(t.Keys)].address == start
        then Successor(start) < end && Held(t, Successor(start))
        else start < end && Held(t, start))
  }

  lemma AsWrittenRepeatsExactlyWhen(t: Table, start: uint32, end: uint32)
    ensures ScanAsWritten(t, start, end).Some? && Held(t, ScanAsWritten(t, start, end).value) <==> ScanRepeats(t, start, end)
  {
  }

  /** The loop as written finds what the intended search finds exactly when it neither repeats an
      address nor leaves the pool: on an empty table it does not look at the end of the range, and
      behind the last address of all the candidate wraps around to zero. */
  lemma AsWrittenIsIntendedExactlyWhen(t: Table, start: uint32, end: uint32)
    ensures ScanAsWritten(t, start, end) == FirstFree(t, start, end) <==>
              if t == map[] then start < end
              else !ScanRepeats(t, start, end) && !(t[Least(t.Keys)].address == start == 0xFFFF_FFFF && 0 < end)
  {
    SearchIsComplete(t, start, end);
    if t != map[] {
      assert Held(t, t[Least(t.Keys)].address);
      if t[Least(t.Keys)].address == start && start + 1 < end {
        assert Successor(start) == start + 1;
      }
    }
  }
}
