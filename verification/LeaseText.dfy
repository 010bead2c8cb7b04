/** The text of the lease file: `%x` octets, dotted quads and decimal time stamps, and the libc
    conversions that read them back, as far as `write_leases` can produce them. */
module LeaseText {
  import opened Wrappers
  import opened Bytes
  import opened DhcpDatagram
  import opened Leases

  const DELIMITER: char := ','

  // ---- find_first_of and find_last_of; npos is the length ----

  function FindFirst(s: string, c: char): (p: nat)
    ensures p <= |s|
  {
    if s == [] || s[0] == c then 0 else 1 + FindFirst(s[1..], c)
  }

  function FindLast(s: string, c: char): (p: nat)
    ensures p <= |s|
  {
    var p := LastIndex(s, c);
    if p < 0 then |s| else p
  }

  function LastIndex(s: string, c: char): (p: int)
    ensures -1 <= p < |s|
  {
    if s == [] then -1 else if s[|s| - 1] == c then |s| - 1 else LastIndex(s[..|s| - 1], c)
  }

  lemma {:induction false} FirstIsAfter(a: string, c: char, b: string)
    requires c !in a
    ensures FindFirst(a + [c] + b, c) == |a|
  {
    if a != [] {
      FirstIsAfter(a[1..], c, b);
      assert (a + [c] + b)[1..] == a[1..] + [c] + b;
    }
  }

  lemma {:induction false} FirstIsNowhere(a: string, c: char)
    requires c !in a
    ensures FindFirst(a, c) == |a|
  {
    if a != [] {
      FirstIsNowhere(a[1..], c);
    }
  }

  lemma {:induction false} LastIsAfter(a: string, c: char, b: string)
    requires c !in b
    ensures LastIndex(a + [c] + b, c) == |a|
    decreases |b|
  {
    var s := a + [c] + b;
    if b == [] {
      assert s[|s| - 1] == c;
    } else {
      var n := |b| - 1;
      LastIsAfter(a, c, b[..n]);
      assert s[..|s| - 1] == a + [c] + b[..n];
      assert s[|s| - 1] == b[n];
    }
  }

  // ---- numbers ----

  function Digit(n: nat): char
    requires n < 16
  {
    "0123456789abcdef"[n]
  }

  function DigitValue(c: char): (r: Option<nat>)
    ensures r.Some? ==> r.value < 16
  {
    if '0' <= c <= '9' then Some((c - '0') as int)
    else if 'a' <= c <= 'f' then Some((c - 'a') as int + 10)
    else if 'A' <= c <= 'F' then Some((c - 'A') as int + 10)
    else None
  }

  predicate IsDigit(c: char, base: nat) {
    DigitValue(c).Some? && DigitValue(c).value < base
  }

  lemma DigitRoundTrip(n: nat)
    requires n < 16
    ensures DigitValue(Digit(n)) == Some(n)
  {
    assert Digit(n) == ['0', '1', '2', '3', '4', '5', '6', '7', '8', '9', 'a', 'b', 'c', 'd', 'e', 'f'][n];
  }

  /** `%u` for base 10, `%x` for base 16: no padding, lower case. */
  function Numeral(n: nat, base: nat): (s: string)
    requires 2 <= base <= 16
    ensures s != []
    decreases n
  {
    if n < base then [Digit(n)] else Numeral(n / base, base) + [Digit(n % base)]
  }

  /** `strtoul` and `strtol`: the value of the digits in front, up to the first other character. */
  function NumberPrefix(s: string, base: nat, value: nat): nat {
    if s == [] || !IsDigit(s[0], base) then value
    else NumberPrefix(s[1..], base, value * base + DigitValue(s[0]).value)
  }

  /** `strtoul` stops at the largest 64-bit number. */
  function StrToUl(s: string): uint64 {
    var n := NumberPrefix(s, 10, 0);
    if n > UINT64_MAX then UINT64_MAX else n
  }

  /** `strtol` to base 16, which stops at the largest signed 64-bit number, stored in an octet. */
  function StrToOctet(s: string): byte {
    var n := NumberPrefix(s, 16, 0);
    if n > 0x7FFF_FFFF_FFFF_FFFF then 0xFF else n % 0x100
  }

  lemma {:induction false} NumeralDigits(n: nat, base: nat)
    requires 2 <= base <= 16
    ensures forall c :: c in Numeral(n, base) ==> IsDigit(c, base)
    decreases n
  {
    if n < base {
      DigitRoundTrip(n);
    } else {
      Division(n, base);
      DigitRoundTrip(n % base);
      NumeralDigits(n / base, base);
    }
  }

  lemma {:induction false} PrefixAppends(s: string, t: string, base: nat, value: nat)
    requires forall c :: c in s ==> IsDigit(c, base)
    ensures NumberPrefix(s + t, base, value) == NumberPrefix(t, base, NumberPrefix(s, base, value))
    decreases |s|
  {
    if s == [] {
      assert s + t == t;
    } else {
      assert (s + t)[1..] == s[1..] + t;
      assert s[0] in s;
      PrefixAppends(s[1..], t, base, value * base + DigitValue(s[0]).value);
    }
  }

  lemma OneMoreDigit(d: nat, base: nat, value: nat)
    requires d < base <= 16
    ensures NumberPrefix([Digit(d)], base, value) == value * base + d
  {
    DigitRoundTrip(d);
    var s := [Digit(d)];
    assert s[1..] == [];
  }

  lemma Division(n: nat, base: nat)
    requires 2 <= base <= n
    ensures n == n / base * base + n % base && n / base < n
  {
    assert n == base * (n / base) + n % base;
  }

  lemma {:induction false} NumeralRoundTrip(n: nat, base: nat)
    requires 2 <= base <= 16
    ensures NumberPrefix(Numeral(n, base), base, 0) == n
    decreases n
  {
    if n < base {
      OneMoreDigit(n, base, 0);
    } else {
      var q, r := n / base, n % base;
      Division(n, base);
      NumeralRoundTrip(q, base);
      NumeralDigits(q, base);
      PrefixAppends(Numeral(q, base), [Digit(r)], base, 0);
      OneMoreDigit(r, base, q);
    }
  }

  /** A number that takes more than 64 bits is read as the largest one that does not. */
  lemma TimeStampRoundTrip(n: nat)
    ensures StrToUl(Numeral(n, 10)) == if n <= 0xFFFF_FFFF_FFFF_FFFF then n else 0xFFFF_FFFF_FFFF_FFFF
  {
    NumeralRoundTrip(n, 10);
  }

  /** Of a larger number the low eight bits are kept, all ones if it takes more than 63 bits. */
  lemma OctetRoundTrip(n: nat)
    ensures StrToOctet(Numeral(n, 16)) == if n < 0x8000_0000_0000_0000 then n % 0x100 else 0xFF
  {
    NumeralRoundTrip(n, 16);
  }

  /** The first character that is no digit ends a number. */
  lemma NumberEnds(n: nat, base: nat, c: char, rest: string)
    requires 2 <= base <= 16 && !IsDigit(c, base)
    ensures NumberPrefix(Numeral(n, base) + ([c] + rest), base, 0) == n
  {
    NumeralDigits(n, base);
    PrefixAppends(Numeral(n, base), [c] + rest, base, 0);
    NumeralRoundTrip(n, base);
  }

  /** Digits are none of the separators. */
  lemma NumeralHasNoSeparator(n: nat, base: nat)
    requires 2 <= base <= 16
    ensures ',' !in Numeral(n, base) && ':' !in Numeral(n, base) && '.' !in Numeral(n, base) && '\n' !in Numeral(n, base)
  {
    NumeralDigits(n, base);
  }

  // ---- hardware addresses: hex octets, each followed by a colon ----

  function HwText(hw: seq<byte>): string {
    if hw == [] then [] else Numeral(hw[0], 16) + ":" + HwText(hw[1..])
  }

  /** The octets in front of the colons of `s`. */
  function Octets(s: string): seq<byte>
    decreases |s|
  {
    var p := FindFirst(s, ':');
    if p == |s| then [] else [StrToOctet(s[..p])] + Octets(s[p + 1..])
  }

  lemma {:induction false} HwTextRoundTrip(hw: seq<byte>)
    ensures Octets(HwText(hw)) == hw
    ensures ',' !in HwText(hw) && '\n' !in HwText(hw)
  {
    if hw != [] {
      var head, rest := Numeral(hw[0], 16), HwText(hw[1..]);
      HwTextRoundTrip(hw[1..]);
      NumeralHasNoSeparator(hw[0], 16);
      FirstIsAfter(head, ':', rest);
      OctetRoundTrip(hw[0]);
      var s := HwText(hw);
      assert s == head + [':'] + rest;
      assert s[..|head|] == head && s[|head| + 1..] == rest;
    }
  }

  // ---- dotted quads ----

  function QuadText(b: seq<byte>): string {
    if b == [] then [] else if |b| == 1 then Numeral(b[0], 10) else Numeral(b[0], 10) + "." + QuadText(b[1..])
  }

  /** The decimal octets between the dots; `None` if one of them is empty, not a number or too large. */
  function QuadOctets(s: string): Option<seq<byte>>
    decreases |s|
  {
    var p := FindFirst(s, '.');
    match QuadPart(s[..p])
    case None => None
    case Some(octet) =>
      if p == |s| then Some([octet])
      else
        match QuadOctets(s[p + 1..])
        case None => None
        case Some(rest) => Some([octet] + rest)
  }

  function QuadPart(part: string): Option<byte> {
    if part == [] || (exists c :: c in part && !IsDigit(c, 10)) || NumberPrefix(part, 10, 0) >= 0x100 then None
    else Some(NumberPrefix(part, 10, 0))
  }

  /** `inet_ntoa` of the address in network order. */
  function AddressText(a: uint32): string {
    QuadText(BigEndian(a, 4))
  }

  /** `inet_aton` into a cleared structure: a text it cannot convert leaves 0.0.0.0. */
  function AddressOf(s: string): uint32 {
    match QuadOctets(s)
    case Some(b) => if |b| == 4 then Word(b, 0) else 0
    case None => 0
  }

  lemma {:induction false} QuadRoundTrip(b: seq<byte>)
    requires b != []
    ensures QuadOctets(QuadText(b)) == Some(b)
    ensures ',' !in QuadText(b) && '\n' !in QuadText(b)
  {
    var head := Numeral(b[0], 10);
    NumeralHasNoSeparator(b[0], 10);
    PartRoundTrip(b[0]);
    if |b| == 1 {
      assert b == [b[0]];
      LastPart(head, b[0]);
    } else {
      QuadRoundTrip(b[1..]);
      PartInFront(head, b[0], QuadText(b[1..]));
      assert QuadText(b) == head + ['.'] + QuadText(b[1..]);
      assert [b[0]] + b[1..] == b;
    }
  }

  lemma LastPart(part: string, octet: byte)
    requires '.' !in part && QuadPart(part) == Some(octet)
    ensures QuadOctets(part) == Some([octet])
  {
    FirstIsNowhere(part, '.');
    assert part[..|part|] == part;
  }

  lemma PartInFront(part: string, octet: byte, rest: string)
    requires '.' !in part && QuadPart(part) == Some(octet) && QuadOctets(rest).Some?
    ensures QuadOctets(part + ['.'] + rest) == Some([octet] + QuadOctets(rest).value)
  {
    var s := part + ['.'] + rest;
    FirstIsAfter(part, '.', rest);
    assert s[..|part|] == part && s[|part| + 1..] == rest;
  }

  lemma PartRoundTrip(o: byte)
    ensures QuadPart(Numeral(o, 10)) == Some(o)
  {
    NumeralDigits(o, 10);
    NumeralRoundTrip(o, 10);
  }

  lemma AddressRoundTrip(a: uint32)
    ensures AddressOf(AddressText(a)) == a
    ensures ',' !in AddressText(a) && '\n' !in AddressText(a)
  {
    var b := BigEndian(a, 4);
    QuadRoundTrip(b);
    Word32RoundTrip(a);
    assert b[0..4] == b;
  }

  // ---- lines ----

  function LineText(k: HwAddr, l: Lease): string {
    HwText(k) + [DELIMITER] + AddressText(l.address) + [DELIMITER] + Numeral(l.expiry, 10)
  }

  /** `Malformed` lines and expired entries are passed over; more than sixteen octets are an
      `out_of_range` that nobody catches. */
  datatype LineResult = Malformed | Expired | Entry(k: HwAddr, l: Lease) | TooManyOctets

  datatype Fields = Fields(hw: string, quad: string, stamp: string)

  /** The line cut at its first and its last delimiter. */
  function Cut(line: string): Option<Fields> {
    CutAt(line, FindFirst(line, DELIMITER), FindLast(line, DELIMITER))
  }

  function CutAt(line: string, first: nat, last: nat): Option<Fields>
    requires first <= |line| && last <= |line|
  {
    if first == |line| || last == |line| then None
    else
      // with a single delimiter the length of the middle part wraps around to npos
      Some(Fields(line[..first], if first < last then line[first + 1..last] else line[first + 1..], line[last + 1..]))
  }

  /** One turn of the loop in `load_leases`. `residue` is what the uninitialised array holds where
      the line has fewer than sixteen octets. */
  function ReadLine(line: string, now: uint64, residue: HwAddr): LineResult {
    match Cut(line)
    case None => Malformed
    case Some(f) => ReadFields(f, now, residue)
  }

  function ReadFields(f: Fields, now: uint64, residue: HwAddr): LineResult {
    var expiry := StrToUl(f.stamp);
    var octets := Octets(f.hw);
    if expiry < now then Expired
    else if |octets| > 16 then TooManyOctets
    else Entry(octets + residue[|octets|..], Lease(AddressOf(f.quad), expiry))
  }

  lemma DelimitersOf(hw: string, quad: string, stamp: string)
    requires DELIMITER !in hw && DELIMITER !in stamp
    ensures var line := hw + [DELIMITER] + quad + [DELIMITER] + stamp;
            FindFirst(line, DELIMITER) == |hw| && FindLast(line, DELIMITER) == |hw| + 1 + |quad|
  {
    var line := hw + [DELIMITER] + quad + [DELIMITER] + stamp;
    assert line == hw + [DELIMITER] + (quad + [DELIMITER] + stamp);
    FirstIsAfter(hw, DELIMITER, quad + [DELIMITER] + stamp);
    LastIsAfter(hw + [DELIMITER] + quad, DELIMITER, stamp);
  }

  lemma CutAtDelimiters(hw: string, quad: string, stamp: string)
    ensures CutAt(hw + [DELIMITER] + quad + [DELIMITER] + stamp, |hw|, |hw| + 1 + |quad|) == Some(Fields(hw, quad, stamp))
  {
    var line := hw + [DELIMITER] + quad + [DELIMITER] + stamp;
    var last := |hw| + 1 + |quad|;
    assert line[..|hw|] == hw && line[|hw| + 1..last] == quad && line[last + 1..] == stamp;
  }

  lemma CutJoined(hw: string, quad: string, stamp: string)
    requires DELIMITER !in hw && DELIMITER !in stamp
    ensures Cut(hw + [DELIMITER] + quad + [DELIMITER] + stamp) == Some(Fields(hw, quad, stamp))
  {
    DelimitersOf(hw, quad, stamp);
    CutAtDelimiters(hw, quad, stamp);
  }

  lemma JoinedHasNoNewline(hw: string, quad: string, stamp: string)
    requires '\n' !in hw && '\n' !in quad && '\n' !in stamp
    ensures '\n' !in hw + [DELIMITER] + quad + [DELIMITER] + stamp
  {
  }

  /** A printed line with any number of octets. Fewer than sixteen leave the rest of the array as it was,
      more than sixteen end the process unless the entry has expired. */
  lemma LineOfOctets(hw: seq<byte>, l: Lease, now: uint64, residue: HwAddr)
    ensures ReadLine(HwText(hw) + "," + AddressText(l.address) + "," + Numeral(l.expiry, 10), now, residue)
            == if l.expiry < now then Expired
               else if |hw| > 16 then TooManyOctets
               else Entry(hw + residue[|hw|..], l)
  {
    HwTextRoundTrip(hw);
    AddressRoundTrip(l.address);
    NumeralHasNoSeparator(l.expiry, 10);
    TimeStampRoundTrip(l.expiry);
    CutJoined(HwText(hw), AddressText(l.address), Numeral(l.expiry, 10));
  }

  /** A line without a comma is passed over. */
  lemma LineWithoutComma(line: string, now: uint64, residue: HwAddr)
    requires ',' !in line
    ensures ReadLine(line, now, residue) == Malformed
  {
    FirstIsNowhere(line, DELIMITER);
  }

  /** With a single comma the text behind it is read twice, as the address and as the time. */
  lemma LineWithOneComma(hw: string, rest: string, now: uint64, residue: HwAddr)
    requires ',' !in hw && ',' !in rest
    ensures ReadLine(hw + "," + rest, now, residue) == ReadFields(Fields(hw, rest, rest), now, residue)
  {
    var line := hw + [DELIMITER] + rest;
    FirstIsAfter(hw, DELIMITER, rest);
    LastIsAfter(hw, DELIMITER, rest);
    assert line[..|hw|] == hw && line[|hw| + 1..] == rest;
  }

  lemma LineRoundTrip(k: HwAddr, l: Lease, now: uint64, residue: HwAddr)
    ensures '\n' !in LineText(k, l)
    ensures ReadLine(LineText(k, l), now, residue) == if l.expiry < now then Expired else Entry(k, l)
  {
    HwTextRoundTrip(k);
    AddressRoundTrip(l.address);
    NumeralHasNoSeparator(l.expiry, 10);
    JoinedHasNoNewline(HwText(k), AddressText(l.address), Numeral(l.expiry, 10));
    LineOfOctets(k, l, now, residue);
    assert k + residue[16..] == k;
  }

  // ---- character by character ----

  lemma TwoDigits(n: nat, base: nat)
    requires 2 <= base <= 16 && base <= n < base * base
    ensures n / base < base && Numeral(n, base) == [Digit(n / base), Digit(n % base)]
  {
    Division(n, base);
    assert n / base < base by {
      if n / base >= base {
        MulMono(base, base, n / base);
      }
    }
  }

  /** Numbers have no leading zeros. */
  lemma {:induction false} NoLeadingZeros(n: nat, base: nat)
    requires 2 <= base <= 16
    ensures Numeral(n, base)[0] == '0' <==> n == 0
    decreases n
  {
    if n >= base {
      Division(n, base);
      NoLeadingZeros(n / base, base);
      assert n / base != 0;
    } else {
      assert Digit(n) == ['0', '1', '2', '3', '4', '5', '6', '7', '8', '9', 'a', 'b', 'c', 'd', 'e', 'f'][n];
    }
  }

  /** A line is the octets, the address and the time, with commas between them. */
  lemma LineIsJoined(k: HwAddr, l: Lease)
    ensures LineText(k, l) == HwText(k) + "," + AddressText(l.address) + "," + Numeral(l.expiry, 10)
    ensures AddressText(l.address) == QuadText(BigEndian(l.address, 4))
  {
  }

  /** For instance: octets are hexadecimal without padding, each with a colon behind it. */
  lemma SampleOctets()
    ensures HwText([0xde, 5]) == "de:5:"
    ensures StrToOctet("dE") == 0xde
  {
    assert "dE"[1..] == "E" && "E"[1..] == "";
  }

  /** The octets of an address are decimal, with dots between them. */
  lemma SampleQuad()
    ensures QuadText([127, 0, 10]) == "127.0.10"
  {
  }
}
