/** The codec of zserver/base64.cpp against section 4 of RFC 4648. */
module Base64 {
  import opened Arithmetic

  type Byte = n: nat | n < 256

  // ----- the alphabet -----

  /** Entry v of the table: A to Z, a to z, 0 to 9, plus, slash. */
  function CharOf(v: nat): (c: char)
    requires v < 64
    ensures IsBase64(c) && ValueOf(c) == v
  {
    if v < 26 then 'A' + v as char
    else if v < 52 then 'a' + (v - 26) as char
    else if v < 62 then '0' + (v - 52) as char
    else if v == 62 then '+' else '/'
  }

  /** is_base64: alphanumeric, plus or slash. */
  predicate IsBase64(c: char) {
    'A' <= c <= 'Z' || 'a' <= c <= 'z' || '0' <= c <= '9' || c == '+' || c == '/'
  }

  /** The position of an alphabet character in the table. */
  function ValueOf(c: char): (v: nat)
    requires IsBase64(c)
    ensures v < 64
  {
    if 'A' <= c <= 'Z' then c as int - 'A' as int
    else if 'a' <= c <= 'z' then c as int - 'a' as int + 26
    else if '0' <= c <= '9' then c as int - '0' as int + 52
    else if c == '+' then 62 else 63
  }

  const CAPITALS := "ABCDEFGHIJKLMNOPQRSTUVWXYZ"
  const SMALLS := "abcdefghijklmnopqrstuvwxyz"
  const OTHERS := "0123456789+/"

  /** base64_chars. */
  const TABLE := CAPITALS + SMALLS + OTHERS

  /** The two functions and the test are those of the table: its entries, their positions and membership in it. */
  lemma TableIs(v: nat, c: char)
    requires v < 64
    ensures |TABLE| == 64 && TABLE[v] == CharOf(v)
    ensures IsBase64(c) <==> c in TABLE
    ensures IsBase64(c) ==> TABLE[ValueOf(c)] == c
  {
    TableEntry(v);
    if c in TABLE {
      var i :| 0 <= i < |TABLE| && TABLE[i] == c;
      TableEntry(i);
    }
    if IsBase64(c) {
      TableEntry(ValueOf(c));
      CharOfValue(c);
    }
  }

  lemma TableEntry(v: nat)
    requires v < 64
    ensures |TABLE| == 64 && TABLE[v] == CharOf(v)
  {
    if v < 62 {
      CodeOf(v);
    }
    if v < 26 {
      assert TABLE[v] == CAPITALS[v] == (65 + v) as char;
    } else if v < 52 {
      assert TABLE[v] == SMALLS[v - 26] == (71 + v) as char;
    } else if v < 62 {
      assert TABLE[v] == OTHERS[v - 52] == (v - 4) as char;
    } else {
      assert TABLE[v] == OTHERS[v - 52];
    }
  }

  lemma CodeOf(v: nat)
    requires v < 62
    ensures CharOf(v) == (if v < 26 then 65 + v else if v < 52 then 71 + v else v - 4) as char
  {}

  lemma CharOfValue(c: char)
    requires IsBase64(c)
    ensures CharOf(ValueOf(c)) == c
  {}

  // ----- the reference: 24-bit groups -----

  /** Four characters for the 24-bit number that three bytes form. */
  function Group(a: Byte, b: Byte, c: Byte): (s: string)
    ensures |s| == 4 && forall i :: 0 <= i < 4 ==> IsBase64(s[i])
  {
    var n := a * 65536 + b * 256 + c;
    [CharOf(n / 262144), CharOf(n / 4096 % 64), CharOf(n / 64 % 64), CharOf(n % 64)]
  }

  /** The encoding: whole groups, then a zero-filled last one with its unused characters replaced by '='. */
  function Encoding(b: seq<Byte>): string {
    if |b| == 0 then ""
    else if |b| == 1 then Group(b[0], 0, 0)[..2] + "=="
    else if |b| == 2 then Group(b[0], b[1], 0)[..3] + "="
    else Group(b[0], b[1], b[2]) + Encoding(b[3..])
  }

  /** The three bytes of the 24-bit number that four characters form. */
  function Ungroup(s: string): (b: seq<Byte>)
    requires |s| == 4 && forall i :: 0 <= i < 4 ==> IsBase64(s[i])
    ensures |b| == 3
  {
    var n := ValueOf(s[0]) * 262144 + ValueOf(s[1]) * 4096 + ValueOf(s[2]) * 64 + ValueOf(s[3]);
    [n / 65536, n / 256 % 256, n % 256]
  }

  /** How many leading characters belong to the alphabet. */
  function ValidPrefix(s: string): (n: nat)
    ensures n <= |s| && (forall i :: 0 <= i < n ==> IsBase64(s[i])) && (n < |s| ==> !IsBase64(s[n]))
  {
    if s == "" || !IsBase64(s[0]) then 0 else 1 + ValidPrefix(s[1..])
  }

  /** Whole groups, then what a last group of two or three characters determines; a single one is dropped. */
  function DecodingOf(s: string): seq<Byte>
    requires forall i :: 0 <= i < |s| ==> IsBase64(s[i])
  {
    if |s| <= 1 then []
    else if |s| == 2 then Ungroup(s + "AA")[..1]
    else if |s| == 3 then Ungroup(s + "A")[..2]
    else Ungroup(s[..4]) + DecodingOf(s[4..])
  }

  function Decoding(s: string): seq<Byte> {
    DecodingOf(s[..ValidPrefix(s)])
  }

  // ----- bytes as bits -----

  /** The number that eight bits stand for. */
  function Value(x: bv8): (v: Byte) {
    x as int
  }

  function Plus(x: bv8, y: bv8): bv8 { x + y }

  lemma PlusFacts(x: bv8, y: bv8)
    ensures Plus(Plus(x, y), 1) == Plus(x, Plus(y, 1)) && Plus(x, 0) == x && Plus(y - 1, 1) == y
    ensures y != 0 ==> y - 1 != 0xff
  {}

  lemma Successor(x: bv8)
    ensures Value(0) == 0
    ensures x == 0xff <==> Value(x) == 255
    ensures x != 0xff ==> Value(Plus(x, 1)) == Value(x) + 1
  {}

  /** The bits of a number below 256. */
  function Bits(v: Byte): (x: bv8)
    ensures Value(x) == v
  {
    Successor(0);
    if v == 0 then 0
    else
      Successor(Bits(v - 1));
      Plus(Bits(v - 1), 1)
  }

  lemma SumStep(x: bv8, y: bv8)
    requires Value(Plus(x, y)) == Value(x) + Value(y) < 255 && y != 0xff
    ensures Value(Plus(x, Plus(y, 1))) == Value(x) + Value(y) + 1
  {
    hide Value, Plus;
    Successor(Plus(x, y));
    PlusFacts(x, y);
  }

  lemma Predecessor(y: bv8) returns (z: bv8)
    requires y != 0
    ensures y == Plus(z, 1) && z != 0xff && Value(y) == Value(z) + 1
  {
    hide Value, Plus;
    z := y - 1;
    PlusFacts(y, y);
    Successor(z);
  }

  /** Adding bytes adds their numbers as long as no carry is lost. */
  lemma {:induction false} Sum(x: bv8, y: bv8)
    requires Value(x) + Value(y) < 256
    ensures Value(Plus(x, y)) == Value(x) + Value(y)
    decreases Value(y)
  {
    hide Value, Plus;
    PlusFacts(x, y);
    Successor(0);
    if y != 0 {
      var z := Predecessor(y);
      Sum(x, z);
      SumStep(x, z);
    }
  }

  lemma ShiftsDown(x: bv8)
    ensures Value(x >> 2) == Value(x) / 4
    ensures Value(x >> 4) == Value(x) / 16
    ensures Value(x >> 6) == Value(x) / 64
  {}

  lemma ShiftsUp(x: bv8)
    ensures Value(x) < 4 ==> Value(x << 6) == Value(x) * 64
    ensures Value(x) < 16 ==> Value(x << 4) == Value(x) * 16
    ensures Value(x) < 64 ==> Value(x << 2) == Value(x) * 4
  {}

  lemma Halves(x: bv8)
    ensures x == Plus((x >> 2) << 2, x & 0x03) == Plus((x >> 4) << 4, x & 0x0f) == Plus((x >> 6) << 6, x & 0x3f)
    ensures x & 0x03 <= 0x03 && x & 0x0f <= 0x0f && x & 0x3f <= 0x3f
  {}

  lemma SmallBits(x: bv8)
    ensures x <= 0x03 ==> Value(x) < 4
    ensures x <= 0x0f ==> Value(x) < 16
    ensures x <= 0x3f ==> Value(x) < 64
  {}

  /** A number split into a multiple of d and less than d. */
  lemma LowPart(v: nat, d: nat, low: nat)
    requires d > 0 && low < d && v == v / d * d + low
    ensures low == v % d
  {
    QuotRem(v, v / d, d, low);
  }

  /** A byte whose upper part is hi, a multiple of d, and whose lower part is low. */
  lemma LowRest(x: bv8, hi: bv8, low: bv8, d: nat)
    requires 0 < d < 256 && x == Plus(hi, low) && Value(hi) == Value(x) / d * d && Value(low) < d
    requires Value(hi) + d <= 256
    ensures Value(low) == Value(x) % d < d
  {
    hide Value, Plus;
    Sum(hi, low);
    LowPart(Value(x), d, Value(low));
  }

  lemma LowTwo(x: bv8)
    ensures Value(x & 0x03) == Value(x) % 4 < 4
  {
    hide Value, Plus;
    Halves(x);
    ShiftsDown(x);
    ShiftsUp(x >> 2);
    SmallBits(x & 0x03);
    LowRest(x, (x >> 2) << 2, x & 0x03, 4);
  }

  lemma LowFour(x: bv8)
    ensures Value(x & 0x0f) == Value(x) % 16 < 16
  {
    hide Value, Plus;
    Halves(x);
    ShiftsDown(x);
    ShiftsUp(x >> 4);
    SmallBits(x & 0x0f);
    LowRest(x, (x >> 4) << 4, x & 0x0f, 16);
  }

  lemma LowSix(x: bv8)
    ensures Value(x & 0x3f) == Value(x) % 64 < 64
  {
    hide Value, Plus;
    Halves(x);
    ShiftsDown(x);
    ShiftsUp(x >> 6);
    SmallBits(x & 0x3f);
    LowRest(x, (x >> 6) << 6, x & 0x3f, 64);
  }

  lemma Masks(x: bv8)
    ensures (x & 0xfc) >> 2 == x >> 2 && (x & 0xf0) >> 4 == x >> 4 && (x & 0xc0) >> 6 == x >> 6
    ensures (x & 0x30) >> 4 == (x >> 4) & 0x03 && (x & 0x3c) >> 2 == (x >> 2) & 0x0f
  {}

  // ----- the bit operations of the source -----

  /** The four expressions of the encoder on char_array_3. */
  function SextetBits(a: bv8, b: bv8, c: bv8): (r: seq<bv8>)
    ensures |r| == 4
  {
    [(a & 0xfc) >> 2, Plus((a & 0x03) << 4, (b & 0xf0) >> 4), Plus((b & 0x0f) << 2, (c & 0xc0) >> 6), c & 0x3f]
  }

  /** The three expressions of the decoder on char_array_4. */
  function OctetBits(p: bv8, q: bv8, r: bv8, s: bv8): (o: seq<bv8>)
    ensures |o| == 3
  {
    [Plus(p << 2, (q & 0x30) >> 4), Plus((q & 0x0f) << 4, (r & 0x3c) >> 2), Plus((r & 0x03) << 6, s)]
  }

  /** The masked high parts. */
  lemma HighParts(x: bv8)
    ensures Value((x & 0xfc) >> 2) == Value(x) / 4
    ensures Value((x & 0xf0) >> 4) == Value(x) / 16
    ensures Value((x & 0xc0) >> 6) == Value(x) / 64
  {
    hide Value;
    Masks(x);
    ShiftsDown(x);
  }

  lemma LowTwoUp(x: bv8)
    ensures Value((x & 0x03) << 4) == Value(x) % 4 * 16
    ensures Value((x & 0x03) << 6) == Value(x) % 4 * 64
  {
    hide Value;
    LowTwo(x);
    ShiftsUp(x & 0x03);
  }

  lemma LowFourUp(x: bv8)
    ensures Value((x & 0x0f) << 2) == Value(x) % 16 * 4
    ensures Value((x & 0x0f) << 4) == Value(x) % 16 * 16
  {
    hide Value;
    LowFour(x);
    ShiftsUp(x & 0x0f);
  }

  /** The masked middle parts. */
  lemma MiddleTwo(x: bv8)
    ensures Value((x & 0x30) >> 4) == Value(x) / 16 % 4
  {
    hide Value;
    Masks(x);
    ShiftsDown(x);
    LowTwo(x >> 4);
  }

  lemma MiddleFour(x: bv8)
    ensures Value((x & 0x3c) >> 2) == Value(x) / 4 % 16
  {
    hide Value;
    Masks(x);
    ShiftsDown(x);
    LowFour(x >> 2);
  }

  lemma SecondSextet(a: bv8, b: bv8)
    ensures Value(Plus((a & 0x03) << 4, (b & 0xf0) >> 4)) == Value(a) % 4 * 16 + Value(b) / 16
  {
    hide Value, Plus;
    LowTwoUp(a);
    HighParts(b);
    Sum((a & 0x03) << 4, (b & 0xf0) >> 4);
  }

  lemma ThirdSextet(b: bv8, c: bv8)
    ensures Value(Plus((b & 0x0f) << 2, (c & 0xc0) >> 6)) == Value(b) % 16 * 4 + Value(c) / 64
  {
    hide Value, Plus;
    LowFourUp(b);
    HighParts(c);
    Sum((b & 0x0f) << 2, (c & 0xc0) >> 6);
  }

  /** The encoder's expressions are the quotients and remainders of the bytes. */
  lemma SextetForms(a: bv8, b: bv8, c: bv8)
    ensures var r := SextetBits(a, b, c);
            && Value(r[0]) == Value(a) / 4 && Value(r[1]) == Value(a) % 4 * 16 + Value(b) / 16
            && Value(r[2]) == Value(b) % 16 * 4 + Value(c) / 64 && Value(r[3]) == Value(c) % 64
  {
    hide Value, Plus;
    HighParts(a);
    SecondSextet(a, b);
    ThirdSextet(b, c);
    LowSix(c);
  }

  lemma FirstOctet(p: bv8, q: bv8)
    requires Value(p) < 64
    ensures Value(Plus(p << 2, (q & 0x30) >> 4)) == Value(p) * 4 + Value(q) / 16 % 4
  {
    hide Value, Plus;
    ShiftsUp(p);
    MiddleTwo(q);
    Sum(p << 2, (q & 0x30) >> 4);
  }

  lemma SecondOctet(q: bv8, r: bv8)
    ensures Value(Plus((q & 0x0f) << 4, (r & 0x3c) >> 2)) == Value(q) % 16 * 16 + Value(r) / 4 % 16
  {
    hide Value, Plus;
    LowFourUp(q);
    MiddleFour(r);
    Sum((q & 0x0f) << 4, (r & 0x3c) >> 2);
  }

  lemma ThirdOctet(r: bv8, s: bv8)
    requires Value(s) < 64
    ensures Value(Plus((r & 0x03) << 6, s)) == Value(r) % 4 * 64 + Value(s)
  {
    hide Value, Plus;
    LowTwoUp(r);
    Sum((r & 0x03) << 6, s);
  }

  /** The decoder's expressions too, as long as the values they use are table positions. */
  lemma OctetForms(p: bv8, q: bv8, r: bv8, s: bv8)
    requires Value(p) < 64
    ensures var o := OctetBits(p, q, r, s);
            && Value(o[0]) == Value(p) * 4 + Value(q) / 16 % 4
            && Value(o[1]) == Value(q) % 16 * 16 + Value(r) / 4 % 16
            && (Value(s) < 64 ==> Value(o[2]) == Value(r) % 4 * 64 + Value(s))
  {
    hide Value, Plus;
    FirstOctet(p, q);
    SecondOctet(q, r);
    if Value(s) < 64 {
      ThirdOctet(r, s);
    }
  }

  function Values(r: seq<bv8>): (v: seq<Byte>)
    ensures |v| == |r|
  {
    seq(|r|, i requires 0 <= i < |r| => Value(r[i]))
  }

  /** The four 6-bit values of char_array_3, as the source computes them. */
  function Sextets(a: Byte, b: Byte, c: Byte): (r: seq<Byte>)
    ensures |r| == 4
  {
    Values(SextetBits(Bits(a), Bits(b), Bits(c)))
  }

  lemma SextetsAre(a: Byte, b: Byte, c: Byte)
    ensures Sextets(a, b, c) == [a / 4, a % 4 * 16 + b / 16, b % 16 * 4 + c / 64, c % 64]
  {
    hide Value, Bits, SextetBits;
    SextetForms(Bits(a), Bits(b), Bits(c));
  }

  /** The 6-bit digits of a 24-bit number, given the bytes' high and low parts. */
  lemma GroupDigits(a1: nat, a0: nat, b1: nat, b0: nat, c1: nat, c0: nat)
    requires a1 < 64 && a0 < 4 && b1 < 16 && b0 < 16 && c1 < 4 && c0 < 64
    ensures var n := (4 * a1 + a0) * 65536 + (16 * b1 + b0) * 256 + (64 * c1 + c0);
            && n / 262144 == a1 && n / 4096 % 64 == 16 * a0 + b1
            && n / 64 % 64 == 4 * b0 + c1 && n % 64 == c0
  {
    var n := (4 * a1 + a0) * 65536 + (16 * b1 + b0) * 256 + (64 * c1 + c0);
    var m2 := a1 * 64 + (16 * a0 + b1);
    var m1 := m2 * 64 + (4 * b0 + c1);
    QuotRem(n, m1, 64, c0);
    QuotRem(m1, m2, 64, 4 * b0 + c1);
    QuotRem(m2, a1, 64, 16 * a0 + b1);
    QuotRem(n, m2, 4096, (4 * b0 + c1) * 64 + c0);
    QuotRem(n, a1, 262144, (16 * a0 + b1) * 4096 + (4 * b0 + c1) * 64 + c0);
  }

  /** The bytes of a 24-bit number, given its 6-bit digits' high and low parts. */
  lemma UngroupDigits(p: nat, q1: nat, q0: nat, r1: nat, r0: nat, t: nat)
    requires p < 64 && q1 < 4 && q0 < 16 && r1 < 16 && r0 < 4 && t < 64
    ensures var n := p * 262144 + (16 * q1 + q0) * 4096 + (4 * r1 + r0) * 64 + t;
            && n / 65536 == 4 * p + q1 && n / 256 % 256 == 16 * q0 + r1 && n % 256 == 64 * r0 + t
  {
    var n := p * 262144 + (16 * q1 + q0) * 4096 + (4 * r1 + r0) * 64 + t;
    var m1 := (4 * p + q1) * 256 + (16 * q0 + r1);
    QuotRem(n, m1, 256, 64 * r0 + t);
    QuotRem(m1, 4 * p + q1, 256, 16 * q0 + r1);
    QuotRem(n, 4 * p + q1, 65536, (16 * q0 + r1) * 256 + 64 * r0 + t);
  }

  lemma SextetsAreGroup(a: Byte, b: Byte, c: Byte)
    ensures var r := Sextets(a, b, c);
            && (forall i :: 0 <= i < 4 ==> r[i] < 64)
            && Group(a, b, c) == [CharOf(r[0]), CharOf(r[1]), CharOf(r[2]), CharOf(r[3])]
  {
    hide CharOf, Sextets, IsBase64;
    SextetsAre(a, b, c);
    GroupDigits(a / 4, a % 4, b / 16, b % 16, c / 64, c % 64);
  }

  /** The three bytes of char_array_4, as the source computes them. */
  function Octets(p: Byte, q: Byte, r: Byte, s: Byte): (o: seq<Byte>)
    ensures |o| == 3
  {
    Values(OctetBits(Bits(p), Bits(q), Bits(r), Bits(s)))
  }

  lemma OctetsAre(p: Byte, q: Byte, r: Byte, s: Byte)
    requires p < 64
    ensures var o := Octets(p, q, r, s);
            && o[0] == p * 4 + q / 16 % 4 && o[1] == q % 16 * 16 + r / 4 % 16
            && (s < 64 ==> o[2] == r % 4 * 64 + s)
  {
    hide Value, Bits, OctetBits;
    OctetForms(Bits(p), Bits(q), Bits(r), Bits(s));
  }

  lemma OctetsOfDigits(p: nat, q: nat, r: nat, t: nat)
    requires p < 64 && q < 64 && r < 64 && t < 64
    ensures Octets(p, q, r, t) == [p * 4 + q / 16, q % 16 * 16 + r / 4, r % 4 * 64 + t]
  {
    hide Octets;
    OctetsAre(p, q, r, t);
    SmallMod(q / 16, 4);
    SmallMod(r / 4, 16);
  }

  lemma SmallMod(x: int, m: int)
    requires 0 <= x < m
    ensures x % m == x
  {}

  lemma NumberOctets(p: nat, q: nat, r: nat, t: nat)
    requires p < 64 && q < 64 && r < 64 && t < 64
    ensures var n := p * 262144 + q * 4096 + r * 64 + t;
            && n / 65536 == p * 4 + q / 16 && n / 256 % 256 == q % 16 * 16 + r / 4 && n % 256 == r % 4 * 64 + t
  {
    UngroupDigits(p, q / 16, q % 16, r / 4, r % 4, t);
  }

  lemma OctetsAreUngroup(s: string)
    requires |s| == 4 && forall i :: 0 <= i < 4 ==> IsBase64(s[i])
    ensures Ungroup(s) == Octets(ValueOf(s[0]), ValueOf(s[1]), ValueOf(s[2]), ValueOf(s[3]))
  {
    hide ValueOf, Octets, IsBase64;
    var p, q, r, t := ValueOf(s[0]), ValueOf(s[1]), ValueOf(s[2]), ValueOf(s[3]);
    OctetsOfDigits(p, q, r, t);
    NumberOctets(p, q, r, t);
  }

  /** Repacking 6-bit digits into bytes undoes splitting bytes into 6-bit digits. */
  lemma OctetsOfSextets(a: Byte, b: Byte, c: Byte)
    ensures var r := Sextets(a, b, c); Octets(r[0], r[1], r[2], r[3]) == [a, b, c]
  {
    hide Sextets, Octets;
    SextetsAre(a, b, c);
    var q, r := a % 4 * 16 + b / 16, b % 16 * 4 + c / 64;
    OctetsOfDigits(a / 4, q, r, c % 64);
    QuotRem(q, a % 4, 16, b / 16);
    QuotRem(r, b % 16, 4, c / 64);
  }

  lemma UngroupGroup(a: Byte, b: Byte, c: Byte)
    ensures Ungroup(Group(a, b, c)) == [a, b, c]
  {
    hide CharOf, ValueOf, Group, Ungroup, Octets, Sextets, IsBase64;
    SextetsAreGroup(a, b, c);
    OctetsAreUngroup(Group(a, b, c));
    OctetsOfSextets(a, b, c);
  }

  /** A character made from zero bits decodes like the 'A' that decoding pads with. */
  lemma GroupTails(a: Byte, b: Byte)
    ensures Group(a, 0, 0) == Group(a, 0, 0)[..2] + "AA"
    ensures Group(a, b, 0) == Group(a, b, 0)[..3] + "A"
  {
    ZeroTail(a, b, 0);
    ZeroTail(a, 0, 0);
  }

  lemma ZeroTail(a: Byte, b: Byte, c: Byte)
    ensures c == 0 ==> Group(a, b, c)[3] == 'A'
    ensures b == c == 0 ==> Group(a, b, c)[2] == 'A'
  {
    hide Group, Sextets, CharOf, IsBase64;
    SextetsAreGroup(a, b, c);
    SextetsAre(a, b, c);
    FirstChar();
  }

  lemma FirstChar()
    ensures CharOf(0) == 'A'
  {}

  // ----- properties of the encoding -----

  lemma {:induction false} PrefixOfJoin(s: string, t: string)
    requires forall i :: 0 <= i < |s| ==> IsBase64(s[i])
    ensures ValidPrefix(s + t) == |s| + ValidPrefix(t)
  {
    if s == "" {
      assert s + t == t;
    } else {
      assert (s + t)[1..] == s[1..] + t;
      PrefixOfJoin(s[1..], t);
    }
  }

  /** Decoding undoes encoding, for every byte sequence. */
  lemma {:induction false} RoundTrip(b: seq<Byte>)
    ensures Decoding(Encoding(b)) == b
  {
    hide Group, Ungroup, Decoding, IsBase64;
    if |b| <= 2 {
      RoundTripLast(b);
    } else {
      var head, tail := b[..3], b[3..];
      RoundTrip(tail);
      var g := Group(b[0], b[1], b[2]);
      assert Encoding(b) == g + Encoding(tail);
      DecodingOfGroup(g, Encoding(tail));
      UngroupGroup(b[0], b[1], b[2]);
      assert head == [b[0], b[1], b[2]] && head + tail == b;
    }
  }

  lemma DecodingOfGroup(g: string, rest: string)
    requires |g| == 4 && forall i :: 0 <= i < 4 ==> IsBase64(g[i])
    ensures Decoding(g + rest) == Ungroup(g) + Decoding(rest)
  {
    hide Ungroup, ValidPrefix, IsBase64;
    PrefixOfJoin(g, rest);
    var v := ValidPrefix(rest);
    var s := (g + rest)[..4 + v];
    assert s[4..] == rest[..v] && s[..4] == g;
  }

  /** Decoding stops at the padding. */
  lemma DecodingPadded(g: string, pad: string)
    requires (forall i :: 0 <= i < |g| ==> IsBase64(g[i])) && (pad == "=" || pad == "==")
    ensures Decoding(g + pad) == DecodingOf(g)
  {
    PrefixOfJoin(g, pad);
    assert (g + pad)[..|g|] == g;
  }

  lemma RoundTripLast(b: seq<Byte>)
    requires |b| <= 2
    ensures Decoding(Encoding(b)) == b
  {
    hide Group, Ungroup, IsBase64;
    if |b| == 0 {
    } else {
      hide Decoding;
      var c := if |b| == 1 then 0 else b[1];
      var g := Group(b[0], c, 0);
      GroupTails(b[0], c);
      UngroupGroup(b[0], c, 0);
      if |b| == 1 {
        DecodingPadded(g[..2], "==");
      } else {
        DecodingPadded(g[..3], "=");
      }
    }
  }

  /** The number of padding characters for n bytes. */
  function Padding(n: nat): nat {
    if n % 3 == 0 then 0 else 3 - n % 3
  }

  /** Four characters per started group of three bytes; only alphabet characters, then the padding. */
  lemma {:induction false} Shape(b: seq<Byte>)
    ensures |Encoding(b)| == (|b| + 2) / 3 * 4
    ensures Padding(|b|) <= |Encoding(b)|
    ensures forall i :: 0 <= i < |Encoding(b)| ==>
              if i < |Encoding(b)| - Padding(|b|) then IsBase64(Encoding(b)[i]) else Encoding(b)[i] == '='
  {
    hide Group, IsBase64;
    if |b| > 2 {
      Shape(b[3..]);
      var g, rest := Group(b[0], b[1], b[2]), Encoding(b[3..]);
      assert Encoding(b) == g + rest && Padding(|b|) == Padding(|b| - 3);
      assert forall i :: 4 <= i < |Encoding(b)| ==> Encoding(b)[i] == rest[i - 4];
    }
  }

  // ----- the code -----

  /** The first count characters of a group are appended. */
  method EmitChars(ret0: string, a3: array<Byte>, count: nat) returns (ret: string)
    requires a3.Length == 3 && count <= 4
    ensures ret == ret0 + Group(a3[0], a3[1], a3[2])[..count]
  {
    hide Group, CharOf, Sextets, SextetBits, Bits, IsBase64;
    var bits := SextetBits(Bits(a3[0]), Bits(a3[1]), Bits(a3[2]));
    ghost var g := Group(a3[0], a3[1], a3[2]);
    GroupOfBits(a3[0], a3[1], a3[2]);
    ret := ret0;
    for j := 0 to count
      invariant ret == ret0 + g[..j]
    {
      TableEntry(Value(bits[j]));
      ret := ret + [TABLE[Value(bits[j])]];
    }
  }

  /** Each character of a group is the table entry of the source's bit expression. */
  lemma GroupOfBits(a: Byte, b: Byte, c: Byte)
    ensures forall j :: 0 <= j < 4 ==>
              var v := Value(SextetBits(Bits(a), Bits(b), Bits(c))[j]); v < 64 && Group(a, b, c)[j] == CharOf(v)
  {
    hide Group, CharOf, SextetBits, Bits, Value;
    SextetsAreGroup(a, b, c);
    var r := Sextets(a, b, c);
    assert forall j :: 0 <= j < 4 ==> r[j] == Value(SextetBits(Bits(a), Bits(b), Bits(c))[j]);
  }

  /** base64_encode. */
  method Encode(b: seq<Byte>) returns (ret: string)
    ensures ret == Encoding(b)
  {
    hide Group, Encoding, IsBase64;
    ret := "";
    var a3 := new Byte[3](_ => 0);
    var i: nat := 0;
    ghost var start: nat := 0;
    assert b[0..] == b;
    for k := 0 to |b|
      invariant i <= 2 && start + i == k && forall j :: 0 <= j < i ==> a3[j] == b[start + j]
      invariant Encoding(b) == ret + Encoding(b[start..])
    {
      a3[i] := b[k];
      i := i + 1;
      if i == 3 {
        EncodingStep(b, start);
        assert a3[0] == b[start] && a3[1] == b[start + 1] && a3[2] == b[start + 2];
        ret := EmitChars(ret, a3, 4);
        start := start + 3;
        i := 0;
      }
    }
    ret := EncodeRest(ret, a3, i, b[start..]);
  }

  /** Encoding from position k on: a whole group, then from position k + 3 on. */
  lemma EncodingStep(b: seq<Byte>, k: nat)
    requires k + 3 <= |b|
    ensures Encoding(b[k..]) == Group(b[k], b[k + 1], b[k + 2])[..4] + Encoding(b[k + 3..])
  {
    hide Group, IsBase64;
    var rest := b[k..];
    assert rest[3..] == b[k + 3..];
    assert Group(rest[0], rest[1], rest[2])[..4] == Group(rest[0], rest[1], rest[2]);
  }

  /** The last, incomplete group. */
  method EncodeRest(ret0: string, a3: array<Byte>, i0: nat, ghost rest: seq<Byte>) returns (ret: string)
    requires a3.Length == 3 && i0 == |rest| <= 2 && forall j :: 0 <= j < i0 ==> a3[j] == rest[j]
    modifies a3
    ensures ret == ret0 + Encoding(rest)
  {
    hide Group, Encoding, IsBase64;
    EncodingEnd(rest);
    ret := ret0;
    var i := i0;
    if i != 0 {
      for j := i to 3
        invariant forall l :: 0 <= l < i ==> a3[l] == rest[l]
        invariant forall l :: i <= l < j ==> a3[l] == 0
      {
        a3[j] := 0;
      }
      ret := EmitChars(ret, a3, i + 1);
      ghost var before := ret;
      while i < 3
        invariant i0 <= i <= 3 && ret == before + "=="[..i - i0]
      {
        ret := ret + "=";
        i := i + 1;
      }
    }
  }

  lemma EncodingEnd(rest: seq<Byte>)
    requires |rest| <= 2
    ensures rest == [] ==> Encoding(rest) == ""
    ensures rest != [] ==>
              Encoding(rest) == Group(rest[0], if |rest| == 2 then rest[1] else 0, 0)[..|rest| + 1] + "=="[..3 - |rest|]
  {
    hide Group;
    assert "=="[..1] == "=" && "=="[..2] == "==";
  }

  /** Decoding from position k on: a whole group, then from position k + 4 on. */
  lemma DecodingStep(t: string, k: nat)
    requires k + 4 <= |t| && forall i :: 0 <= i < |t| ==> IsBase64(t[i])
    ensures DecodingOf(t[k..]) == GroupBytes(t[k..k + 4]) + DecodingOf(t[k + 4..])
  {
    hide Ungroup, IsBase64;
    var rest, group := t[k..], t[k..k + 4];
    assert rest[..4] == group && rest[4..] == t[k + 4..];
    assert group + "AA"[..0] == group;
    assert DecodingOf(rest) == Ungroup(group) + DecodingOf(t[k + 4..]);
    assert Ungroup(group)[..3] == Ungroup(group);
  }

  /** The bytes of a group of count characters do not depend on what the array still holds behind them. */
  lemma OctetsPrefix(s: string, a: seq<Byte>)
    requires 2 <= |s| <= 4 && |a| == 4 && forall i :: 0 <= i < |s| ==> IsBase64(s[i]) && a[i] == ValueOf(s[i])
    ensures Octets(a[0], a[1], a[2], a[3])[..|s| - 1] == Ungroup(s + "AA"[..4 - |s|])[..|s| - 1]
  {
    hide Ungroup, Octets, ValueOf;
    var u := s + "AA"[..4 - |s|];
    assert forall i :: 0 <= i < 4 ==> IsBase64(u[i]) && (i < |s| ==> ValueOf(u[i]) == a[i]);
    OctetsAreUngroup(u);
    OctetsAre(a[0], a[1], a[2], a[3]);
    OctetsAre(ValueOf(u[0]), ValueOf(u[1]), ValueOf(u[2]), ValueOf(u[3]));
  }

  /** The bytes that a group of count characters yields. */
  function GroupBytes(s: string): seq<Byte>
    requires 1 <= |s| <= 4 && forall i :: 0 <= i < |s| ==> IsBase64(s[i])
  {
    if |s| == 1 then [] else Ungroup(s + "AA"[..4 - |s|])[..|s| - 1]
  }

  /** The characters of a group are replaced by their values and all but one byte per missing character appended. */
  method EmitBytes(ret0: seq<Byte>, a4: array<Byte>, count: nat, ghost s: string) returns (ret: seq<Byte>)
    requires a4.Length == 4 && 1 <= count <= 4 && |s| == count
    requires forall j :: 0 <= j < count ==> IsBase64(s[j]) && a4[j] == s[j] as int
    modifies a4
    ensures ret == ret0 + GroupBytes(s)
  {
    hide Ungroup, ValueOf, IsBase64, Octets, OctetBits, Bits;
    for j := 0 to count
      invariant forall l :: 0 <= l < j ==> a4[l] == ValueOf(s[l])
      invariant forall l :: j <= l < count ==> a4[l] == s[l] as int
    {
      assert a4[j] as char == s[j];
      a4[j] := ValueOf(a4[j] as char);
    }
    var bits := OctetBits(Bits(a4[0]), Bits(a4[1]), Bits(a4[2]), Bits(a4[3]));
    ghost var o := Octets(a4[0], a4[1], a4[2], a4[3]);
    OctetsOfBits(a4[0], a4[1], a4[2], a4[3]);
    if count >= 2 {
      OctetsPrefix(s, a4[..]);
    }
    ret := ret0;
    for j := 0 to count - 1
      invariant ret == ret0 + o[..j]
    {
      ret := ret + [Value(bits[j])];
    }
  }

  lemma OctetsOfBits(p: Byte, q: Byte, r: Byte, s: Byte)
    ensures forall j :: 0 <= j < 3 ==>
              Value(OctetBits(Bits(p), Bits(q), Bits(r), Bits(s))[j]) == Octets(p, q, r, s)[j]
  {
    hide OctetBits, Bits, Value;
  }

  /** base64_decode. */
  method Decode(s: string) returns (ret: seq<Byte>)
    ensures ret == Decoding(s)
  {
    hide GroupBytes, DecodingOf, ValueOf, IsBase64, ValidPrefix;
    ret := [];
    var a4 := new Byte[4](_ => 0);
    var i: nat := 0;
    var in_: nat := 0;
    ghost var t, start: nat := s[..ValidPrefix(s)], 0;
    assert t[0..] == t;
    while in_ < |s| && s[in_] != '=' && IsBase64(s[in_])
      invariant i <= 3 && start + i == in_ <= |t|
      invariant forall j :: 0 <= j < i ==> a4[j] == t[start + j] as int
      invariant DecodingOf(t) == ret + DecodingOf(t[start..])
    {
      AlphabetByte(s[in_]);
      a4[i] := s[in_] as int;
      in_ := in_ + 1;
      i := i + 1;
      if i == 4 {
        DecodingStep(t, start);
        ghost var group := t[start..start + 4];
        assert forall j :: 0 <= j < 4 ==> group[j] == t[start + j] && IsBase64(group[j]);
        ret := EmitBytes(ret, a4, 4, group);
        start := start + 4;
        i := 0;
      }
    }
    AlphabetByte('=');
    ghost var rest := t[start..];
    assert forall j :: 0 <= j < i ==> rest[j] == t[start + j] && IsBase64(rest[j]);
    DecodingEnd(rest);
    if i != 0 {
      ret := EmitBytes(ret, a4, i, rest);
    }
  }

  lemma AlphabetByte(c: char)
    ensures IsBase64(c) ==> c as int < 128 && c != '='
  {}

  lemma DecodingEnd(s: string)
    requires |s| <= 3 && forall i :: 0 <= i < |s| ==> IsBase64(s[i])
    ensures DecodingOf(s) == if s == [] then [] else GroupBytes(s)
  {
    hide Ungroup, IsBase64;
    assert "AA"[..1] == "A" && "AA"[..2] == "AA";
  }
}
