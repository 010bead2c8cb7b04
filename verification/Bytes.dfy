/** Bit and byte arithmetic behind src/bytemanip.hpp and src/bytemanip.cpp.

    Unsigned machine words are integers with an explicit range, and the source's bit operators
    are defined bit by bit on natural numbers, so every mask, shift and byte swap is spelled out. */
module Bytes {
  import opened Wrappers

  type byte = x: int | 0 <= x < 0x100
  type uint16 = x: int | 0 <= x < 0x1_0000
  type uint32 = x: int | 0 <= x < 0x1_0000_0000
  type uint64 = x: int | 0 <= x < 0x1_0000_0000_0000_0000

  const UINT64_MAX: uint64 := 0xFFFF_FFFF_FFFF_FFFF

  function Pow2(k: nat): (r: nat)
    ensures r > 0
  {
    if k == 0 then 1 else 2 * Pow2(k - 1)
  }

  /** The source's `a & b`. */
  function BitAnd(a: nat, b: nat): nat {
    if a == 0 || b == 0 then 0
    else (if a % 2 == 1 && b % 2 == 1 then 1 else 0) + 2 * BitAnd(a / 2, b / 2)
  }

  /** The source's `a | b`. */
  function BitOr(a: nat, b: nat): nat {
    if a == 0 then b
    else if b == 0 then a
    else (if a % 2 == 1 || b % 2 == 1 then 1 else 0) + 2 * BitOr(a / 2, b / 2)
  }

  /** The `size` low bytes of `n`, most significant first. */
  function BigEndian(n: nat, size: nat): (s: seq<byte>)
    ensures |s| == size
  {
    if size == 0 then [] else BigEndian(n / 0x100, size - 1) + [n % 0x100]
  }

  /** The number whose bytes, most significant first, are `s`. */
  function FromBigEndian(s: seq<byte>): nat {
    if s == [] then 0 else FromBigEndian(s[..|s| - 1]) * 0x100 + s[|s| - 1]
  }

  lemma {:induction false} FromBigEndianBound(s: seq<byte>)
    ensures FromBigEndian(s) < Pow2(8 * |s|)
  {
    if s != [] {
      var t := s[..|s| - 1];
      FromBigEndianBound(t);
      Pow2Plus8(8 * |t|);
      assert 8 * |s| == 8 * |t| + 8;
    }
  }

  lemma Pow2Plus8(k: nat)
    ensures Pow2(k + 8) == 0x100 * Pow2(k)
  {
    assert Pow2(k + 8) == 2 * Pow2(k + 7) == 4 * Pow2(k + 6) == 8 * Pow2(k + 5) == 16 * Pow2(k + 4);
    assert Pow2(k + 4) == 2 * Pow2(k + 3) == 4 * Pow2(k + 2) == 8 * Pow2(k + 1) == 16 * Pow2(k);
  }

  lemma WordBounds()
    ensures Pow2(8) == 0x100
    ensures Pow2(16) == 0x1_0000
    ensures Pow2(32) == 0x1_0000_0000
  {
    Pow2Plus8(0);
    Pow2Plus8(8);
    Pow2Plus8(16);
    Pow2Plus8(24);
  }

  /** Reading four bytes gives a 32-bit word, two bytes a 16-bit word. */
  lemma WordOfBytes(s: seq<byte>)
    ensures |s| == 4 ==> FromBigEndian(s) < 0x1_0000_0000
    ensures |s| == 2 ==> FromBigEndian(s) < 0x1_0000
  {
    FromBigEndianBound(s);
    WordBounds();
  }

  /** `to_number` undoes `to_byte_array` on every value that fits. */
  lemma {:induction false} NumberRoundTrip(n: nat, size: nat)
    requires n < Pow2(8 * size)
    ensures FromBigEndian(BigEndian(n, size)) == n
  {
    if size > 0 {
      Pow2Plus8(8 * (size - 1));
      assert 8 * size == 8 * (size - 1) + 8;
      NumberRoundTrip(n / 0x100, size - 1);
      assert BigEndian(n, size)[..size - 1] == BigEndian(n / 0x100, size - 1);
    }
  }

  /** `to_byte_array` undoes `to_number` on every byte string. */
  lemma {:induction false} BytesRoundTrip(s: seq<byte>)
    ensures BigEndian(FromBigEndian(s), |s|) == s
  {
    if s != [] {
      BytesRoundTrip(s[..|s| - 1]);
    }
  }

  lemma Word32RoundTrip(n: uint32)
    ensures FromBigEndian(BigEndian(n, 4)) == n
  {
    WordBounds();
    NumberRoundTrip(n, 4);
  }

  lemma Word16RoundTrip(n: uint16)
    ensures FromBigEndian(BigEndian(n, 2)) == n
  {
    WordBounds();
    NumberRoundTrip(n, 2);
  }

  // ---- the masks and shifts of the loops ----

  lemma MulMono(d: nat, x: int, y: int)
    requires x <= y
    ensures d * x <= d * y
  {
  }

  lemma QuotientUnique(n: nat, d: nat, q: nat, r: nat)
    requires d > 0 && r < d && n == d * q + r
    ensures n / d == q && n % d == r
  {
    var q', r' := n / d, n % d;
    assert n == d * q' + r';
    if q' < q {
      MulGap(d, q', q);
    } else if q < q' {
      MulGap(d, q, q');
    }
  }

  lemma MulGap(d: nat, x: int, y: int)
    requires x < y
    ensures d * x + d <= d * y
  {
    MulMono(d, x + 1, y);
    assert d * (x + 1) == d * x + d;
  }

  lemma MulAssoc(a: nat, b: nat, c: nat)
    ensures a * (b * c) == (a * b) * c
  {
  }

  lemma DivDiv(n: nat, a: nat, b: nat)
    requires a > 0 && b > 0
    ensures a * b > 0 && n / a / b == n / (a * b)
  {
    var q, r := n / a, n % a;
    var q1, r1 := q / b, q % b;
    TwoDivisions(a, b, q, r, q1, r1);
    QuotientUnique(n, a * b, q1, a * r1 + r);
  }

  lemma TwoDivisions(a: nat, b: nat, q: nat, r: nat, q1: nat, r1: nat)
    requires r < a && r1 < b && q == b * q1 + r1
    ensures a * b > 0 && a * q + r == (a * b) * q1 + (a * r1 + r) && 0 <= a * r1 + r < a * b
  {
    DistributeLeft(a, b * q1, r1);
    MulAssoc(a, b, q1);
    MulGap(a, r1, b);
  }

  lemma DistributeLeft(a: nat, x: nat, y: nat)
    ensures a * (x + y) == a * x + a * y
  {
  }

  lemma AndShifted(a: nat, b: nat)
    ensures BitAnd(a, 2 * b) == 2 * BitAnd(a / 2, b)
  {
  }

  lemma {:induction false} AndLowBits(n: nat, k: nat)
    ensures BitAnd(n, Pow2(k) - 1) == n % Pow2(k)
  {
    if k > 0 {
      var p := Pow2(k - 1);
      AndLowBits(n / 2, k - 1);
      AndHalvesOf(n, 2 * p - 1, n / 2, p - 1);
      ModDouble(n, p);
    }
  }

  lemma ModDouble(n: nat, p: nat)
    requires p > 0
    ensures n % (2 * p) == 2 * (n / 2 % p) + n % 2
  {
    var q, r := n / 2 / p, n / 2 % p;
    assert n / 2 == p * q + r;
    MulAssoc(2, p, q);
    QuotientUnique(n, 2 * p, q, 2 * r + n % 2);
  }

  /** The mask-and-shift expression of the loops picks out one byte. */
  lemma {:induction false} ExtractByte(n: nat, k: nat, p: nat)
    requires p == Pow2(k)
    ensures BitAnd(n, 0xff * p) == n / p % 0x100 * p
  {
    if k == 0 {
      LowestByte(n);
    } else {
      var q := Pow2(k - 1);
      ExtractByte(n / 2, k - 1, q);
      ExtractShifted(n, q);
    }
  }

  lemma LowestByte(n: nat)
    ensures BitAnd(n, 0xff) == n % 0x100
  {
    WordBounds();
    AndLowBits(n, 8);
  }

  lemma ExtractShifted(n: nat, p: nat)
    requires p > 0 && BitAnd(n / 2, 0xff * p) == n / 2 / p % 0x100 * p
    ensures BitAnd(n, 0xff * (2 * p)) == n / (2 * p) % 0x100 * (2 * p)
  {
    AndShifted(n, 0xff * p);
    DivDiv(n, 2, p);
    Double(n / (2 * p) % 0x100, p);
  }

  lemma {:induction false} BigEndianAt(n: nat, size: nat, i: nat)
    requires i < size
    ensures BigEndian(n, size)[i] == n / Pow2(8 * (size - 1 - i)) % 0x100
  {
    if i < size - 1 {
      BigEndianAt(n / 0x100, size - 1, i);
      var k := 8 * (size - 2 - i);
      Pow2Plus8(k);
      assert k + 8 == 8 * (size - 1 - i);
      DivDiv(n, 0x100, Pow2(k));
    }
  }

  lemma {:induction false} OrDisjoint(h: nat, l: nat, k: nat)
    requires l < Pow2(k)
    ensures BitOr(h * Pow2(k), l) == h * Pow2(k) + l
  {
    if k > 0 && l > 0 && h > 0 {
      var p := Pow2(k - 1);
      assert h * Pow2(k) == 2 * (h * p);
      assert h * p > 0;
      OrDisjoint(h, l / 2, k - 1);
    }
  }

  // ---- the loops themselves ----

  /** `to_byte_array`: a counted loop that fills a fixed-size array. */
  method ToByteArray(number: nat, size: nat) returns (arr: array<byte>)
    ensures fresh(arr) && arr[..] == BigEndian(number, size)
  {
    arr := new byte[size];
    for i := 0 to size
      invariant arr[..i] == BigEndian(number, size)[..i]
    {
      var shift := 8 * (size - i - 1);
      ExtractByte(number, shift, Pow2(shift));
      BigEndianAt(number, size, i);
      ShiftBack(number / Pow2(shift) % 0x100, Pow2(shift));
      arr[i] := BitAnd(number, 0xff * Pow2(shift)) / Pow2(shift);
      assert arr[..i + 1] == arr[..i] + [arr[i]];
    }
    assert arr[..] == arr[..size];
  }

  lemma ShiftBack(b: nat, p: nat)
    requires p > 0
    ensures b * p / p == b
  {
    QuotientUnique(b * p, p, b, 0);
  }

  /** `to_byte_vector`: the same loop, pushing onto a growing vector. */
  method NumberToByteVector(number: nat, size: nat) returns (vec: seq<byte>)
    ensures vec == BigEndian(number, size)
  {
    vec := [];
    for i := 0 to size
      invariant vec == BigEndian(number, size)[..i]
    {
      var shift := 8 * (size - i - 1);
      ExtractByte(number, shift, Pow2(shift));
      BigEndianAt(number, size, i);
      ShiftBack(number / Pow2(shift) % 0x100, Pow2(shift));
      vec := vec + [BitAnd(number, 0xff * Pow2(shift)) / Pow2(shift)];
    }
  }

  /** `to_number`: accumulates `value |= byte << shift`; a vector of the wrong size is an
      `invalid_argument`, here `None`. */
  method ToNumber(bytes: seq<byte>, size: nat) returns (r: Option<nat>)
    ensures r == if |bytes| == size then Some(FromBigEndian(bytes)) else None
  {
    if |bytes| != size {
      return None;
    }
    var value := 0;
    for i := 0 to size
      invariant value == FromBigEndian(bytes[..i]) * Pow2(8 * (size - i))
    {
      var shift := 8 * (size - i - 1);
      value := BitOr(value, bytes[i] * Pow2(shift));
      assert 8 * (size - i) == shift + 8;
      AccumulateByte(bytes[..i], bytes[i], shift);
      assert bytes[..i + 1] == bytes[..i] + [bytes[i]];
    }
    assert bytes[..size] == bytes;
    r := Some(value);
  }

  /** One turn of the `to_number` loop: the new byte lands on bits that are still clear. */
  lemma AccumulateByte(s: seq<byte>, b: byte, shift: nat)
    ensures BitOr(FromBigEndian(s) * Pow2(shift + 8), b * Pow2(shift)) == FromBigEndian(s + [b]) * Pow2(shift)
  {
    var p, hi := Pow2(shift), FromBigEndian(s);
    Pow2Plus8(shift);
    MulMono(p, b, 0xff);
    OrDisjoint(hi, b * p, shift + 8);
    assert (s + [b])[..|s|] == s;
    MulAssoc(hi, 0x100, p);
    Distribute(hi * 0x100, b, p);
  }

  lemma Distribute(x: nat, y: nat, p: nat)
    ensures (x + y) * p == x * p + y * p
  {
  }

  /** `convert_number_to_byte_array_and_push`: appends to the caller's vector. */
  method PushNumber(vec: seq<byte>, number: nat, size: nat) returns (pushed: seq<byte>)
    ensures pushed == vec + BigEndian(number, size)
  {
    var arr := ToByteArray(number, size);
    pushed := vec;
    for i := 0 to size
      invariant arr[..] == BigEndian(number, size)
      invariant pushed == vec + BigEndian(number, size)[..i]
    {
      assert arr[..][i] == BigEndian(number, size)[i];
      pushed := pushed + [arr[i]];
    }
  }

  // ---- host byte order ----

  datatype Endian = Little | Big

  function Reverse(s: seq<byte>): (r: seq<byte>)
    ensures |r| == |s|
    ensures forall i :: 0 <= i < |s| ==> r[i] == s[|s| - 1 - i]
  {
    seq(|s|, i requires 0 <= i < |s| => s[|s| - 1 - i])
  }

  /** `htonl`/`htons`, and also `ntohl`/`ntohs`: a byte swap on a little-endian host. */
  function HostToNet(e: Endian, n: nat, size: nat): nat {
    if e.Little? then FromBigEndian(Reverse(BigEndian(n, size))) else n
  }

  /** `to_network_byte_array`: the swap first, the big-endian codec on top of it. */
  function NetworkBytes(e: Endian, n: nat, size: nat): (s: seq<byte>)
    ensures |s| == size
  {
    BigEndian(HostToNet(e, n, size), size)
  }

  /** `convert_network_byte_array_to_uint16/32`. */
  function FromNetworkBytes(e: Endian, s: seq<byte>): nat {
    HostToNet(e, FromBigEndian(s), |s|)
  }

  lemma HostToNetFits(e: Endian, n: nat, size: nat)
    requires n < Pow2(8 * size)
    ensures HostToNet(e, n, size) < Pow2(8 * size)
  {
    FromBigEndianBound(Reverse(BigEndian(n, size)));
  }

  /** Four bytes always decode to a 32-bit word, two bytes to a 16-bit word. */
  lemma NetworkWordFits(e: Endian, s: seq<byte>)
    ensures |s| == 4 ==> FromNetworkBytes(e, s) < 0x1_0000_0000
    ensures |s| == 2 ==> FromNetworkBytes(e, s) < 0x1_0000
  {
    WordBounds();
    FromBigEndianBound(s);
    HostToNetFits(e, FromBigEndian(s), |s|);
  }

  /** The extra swap on encoding and the one on decoding cancel on either kind of host. */
  lemma NetworkRoundTrip(e: Endian, n: nat, size: nat)
    requires n < Pow2(8 * size)
    ensures FromNetworkBytes(e, NetworkBytes(e, n, size)) == n
  {
    HostToNetFits(e, n, size);
    NumberRoundTrip(HostToNet(e, n, size), size);
    SwapTwice(e, n, size);
  }

  lemma SwapTwice(e: Endian, n: nat, size: nat)
    requires n < Pow2(8 * size)
    ensures HostToNet(e, HostToNet(e, n, size), size) == n
  {
    if e.Little? {
      var b := BigEndian(n, size);
      BytesRoundTrip(Reverse(b));
      assert Reverse(Reverse(b)) == b;
      NumberRoundTrip(n, size);
    }
  }

  /** The other direction: bytes that are decoded and encoded again come back unchanged. */
  lemma NetworkEcho(e: Endian, s: seq<byte>)
    ensures NetworkBytes(e, FromNetworkBytes(e, s), |s|) == s
  {
    FromBigEndianBound(s);
    SwapTwice(e, FromBigEndian(s), |s|);
    BytesRoundTrip(s);
  }

  /** What is in memory, and so on the wire: a big-endian host has the high byte first, a little-endian
      one the low byte. Decoding reads the bytes in the same order. */
  lemma NetworkBytesInMemory(e: Endian, n: nat, s: seq<byte>)
    ensures NetworkBytes(e, n, |s|) == if e.Little? then Reverse(BigEndian(n, |s|)) else BigEndian(n, |s|)
    ensures FromNetworkBytes(e, s) == FromBigEndian(if e.Little? then Reverse(s) else s)
  {
    BytesRoundTrip(Reverse(BigEndian(n, |s|)));
    BytesRoundTrip(s);
  }

  /** Bit number `k` of `n`. */
  predicate Bit(n: nat, k: nat) {
    n / Pow2(k) % 2 == 1
  }

  lemma BitOfHalf(n: nat, k: nat)
    ensures Bit(n, k + 1) <==> Bit(n / 2, k)
  {
    DivDiv(n, 2, Pow2(k));
  }

  /** `&` and `|` work bit by bit. */
  lemma {:induction false} BitwiseOperators(a: nat, b: nat, k: nat)
    ensures Bit(BitAnd(a, b), k) <==> Bit(a, k) && Bit(b, k)
    ensures Bit(BitOr(a, b), k) <==> Bit(a, k) || Bit(b, k)
    decreases k
  {
    HalvesOf(a, b);
    if k > 0 {
      BitwiseOperators(a / 2, b / 2, k - 1);
      BitOfHalf(a, k - 1);
      BitOfHalf(b, k - 1);
      BitOfHalf(BitAnd(a, b), k - 1);
      BitOfHalf(BitOr(a, b), k - 1);
    }
  }

  lemma HalvesOf(a: nat, b: nat)
    ensures BitAnd(a, b) / 2 == BitAnd(a / 2, b / 2) && BitOr(a, b) / 2 == BitOr(a / 2, b / 2)
    ensures BitAnd(a, b) % 2 == 1 <==> a % 2 == 1 && b % 2 == 1
    ensures BitOr(a, b) % 2 == 1 <==> a % 2 == 1 || b % 2 == 1
  {
  }

  // ---- masks commute with the byte swap ----

  function BytesAnd(s: seq<byte>, t: seq<byte>): (r: seq<byte>)
    requires |s| == |t|
    ensures |r| == |s|
    ensures forall i :: 0 <= i < |s| ==> r[i] == BitAnd(s[i], t[i])
  {
    seq(|s|, i requires 0 <= i < |s| => AndByte(s[i], t[i]))
  }

  function AndByte(a: byte, b: byte): (r: byte)
    ensures r == BitAnd(a, b)
  {
    AndAtMost(a, b);
    BitAnd(a, b)
  }

  lemma {:induction false} AndAtMost(a: nat, b: nat)
    ensures BitAnd(a, b) <= a
  {
    if a != 0 && b != 0 {
      AndAtMost(a / 2, b / 2);
    }
  }

  /** Shifting left by `k` bits. */
  function Shifted(a: nat, k: nat): nat {
    if k == 0 then a else 2 * Shifted(a, k - 1)
  }

  lemma {:induction false} AndSplit(a: nat, b: nat, x: nat, y: nat, k: nat)
    requires x < Pow2(k) && y < Pow2(k)
    ensures BitAnd(Shifted(a, k) + x, Shifted(b, k) + y) == Shifted(BitAnd(a, b), k) + BitAnd(x, y)
  {
    if k > 0 {
      AndSplit(a, b, x / 2, y / 2, k - 1);
      AndOfDoubles(Shifted(a, k - 1), Shifted(b, k - 1), Shifted(BitAnd(a, b), k - 1), x, y);
    }
  }

  lemma ShiftedByte(a: nat)
    ensures Shifted(a, 8) == a * 0x100
  {
    assert Shifted(a, 8) == 2 * Shifted(a, 7) == 4 * Shifted(a, 6) == 8 * Shifted(a, 5) == 16 * Shifted(a, 4);
    assert Shifted(a, 4) == 2 * Shifted(a, 3) == 4 * Shifted(a, 2) == 8 * Shifted(a, 1) == 16 * a;
  }

  lemma AndOfDoubles(u: nat, v: nat, w: nat, x: nat, y: nat)
    requires BitAnd(u + x / 2, v + y / 2) == w + BitAnd(x / 2, y / 2)
    ensures BitAnd(2 * u + x, 2 * v + y) == 2 * w + BitAnd(x, y)
  {
    HalfOfSum(u, x);
    HalfOfSum(v, y);
    AndHalvesOf(2 * u + x, 2 * v + y, u + x / 2, v + y / 2);
    AndHalves(x, y);
  }

  lemma HalfOfSum(u: nat, x: nat)
    ensures (2 * u + x) / 2 == u + x / 2 && (2 * u + x) % 2 == x % 2
  {
  }

  lemma Double(a: nat, p: nat)
    ensures a * (2 * p) == 2 * (a * p)
  {
  }

  lemma AndHalvesOf(a: nat, b: nat, a': nat, b': nat)
    requires a / 2 == a' && b / 2 == b'
    ensures BitAnd(a, b) == (if a % 2 == 1 && b % 2 == 1 then 1 else 0) + 2 * BitAnd(a', b')
  {
    AndHalves(a, b);
  }

  lemma AndHalves(a: nat, b: nat)
    ensures BitAnd(a, b) == (if a % 2 == 1 && b % 2 == 1 then 1 else 0) + 2 * BitAnd(a / 2, b / 2)
  {
  }

  lemma AndOfAppended(a: nat, b: nat, x: byte, y: byte)
    ensures BitAnd(a * 0x100 + x, b * 0x100 + y) == BitAnd(a, b) * 0x100 + BitAnd(x, y)
  {
    WordBounds();
    AndSplit(a, b, x, y, 8);
    ShiftedByte(a);
    ShiftedByte(b);
    ShiftedByte(BitAnd(a, b));
  }

  lemma {:induction false} AndByBytes(s: seq<byte>, t: seq<byte>)
    requires |s| == |t|
    ensures FromBigEndian(BytesAnd(s, t)) == BitAnd(FromBigEndian(s), FromBigEndian(t))
  {
    if s != [] {
      var n := |s| - 1;
      AndByBytes(s[..n], t[..n]);
      AndOfAppended(FromBigEndian(s[..n]), FromBigEndian(t[..n]), s[n], t[n]);
      assert BytesAnd(s, t)[..n] == BytesAnd(s[..n], t[..n]);
    }
  }

  /** Masking the swapped words is the swap of masking the host-order words. */
  lemma SwapCommutesWithAnd(e: Endian, a: uint32, m: uint32)
    ensures BitAnd(HostToNet(e, a, 4), HostToNet(e, m, 4)) == HostToNet(e, BitAnd(a, m), 4)
  {
    if e.Little? {
      var s, t := BigEndian(a, 4), BigEndian(m, 4);
      Word32RoundTrip(a);
      Word32RoundTrip(m);
      AndByBytes(s, t);
      AndByBytes(Reverse(s), Reverse(t));
      assert BytesAnd(Reverse(s), Reverse(t)) == Reverse(BytesAnd(s, t));
      BytesRoundTrip(BytesAnd(s, t));
    }
  }
}
