/** IPv4 addresses and networks: 32-bit numbers, dotted text, and the conversions between them. */
module Ipv4 {
  import opened Bits
  import opened Results
  import opened Text

  // ---- networks ----

  /** A parsed network (net.IPNet): its first address and its prefix length. */
  datatype IPNet = IPNet(base: nat, bits: nat) {

    function Size(): (n: nat)
      requires bits <= 32
      ensures n > 0
    {
      Pow2(32 - bits)
    }

    function Mask(): nat
      requires bits <= 32
    {
      HighOnes(32, 32 - bits)
    }

    /** The network's address has no bits below the mask. */
    predicate Wf() {
      bits <= 32 && base < WORD && And(base, Mask()) == base
    }

    /** net.IPNet.Contains: the masked address is the network's. */
    predicate Contains(ip: nat)
      requires bits <= 32
    {
      And(ip, Mask()) == base
    }

    function Top(): int
      requires bits <= 32
    {
      base + Size() - 1
    }
  }

  lemma MaskClears(net: IPNet, ip: nat)
    requires net.bits <= 32 && ip < WORD
    ensures And(ip, net.Mask()) == ip - ip % net.Size()
  {
    Pow2Values();
    AndHighOnes(32, ip, 32 - net.bits);
  }

  /** The network's address is a multiple of the network's size. */
  lemma WfAligned(net: IPNet)
    requires net.bits <= 32 && net.base < WORD
    ensures net.Wf() <==> net.base % net.Size() == 0
  {
    MaskClears(net, net.base);
  }

  lemma TopInWord(net: IPNet)
    requires net.Wf()
    ensures net.Top() < WORD
  {
    WfAligned(net);
    Pow2Values();
    Pow2Add(net.bits, 32 - net.bits);
    BlockFits(net.base, net.Size(), Pow2(net.bits));
  }

  /** The mask test of net.IPNet.Contains is membership in one contiguous range. */
  lemma ContainsIsRange(net: IPNet, ip: nat)
    requires net.Wf() && ip < WORD
    ensures net.Contains(ip) <==> net.base <= ip <= net.Top()
  {
    WfAligned(net);
    MaskClears(net, ip);
    FloorIsBlock(net.base, net.Size(), ip);
  }

  // ---- dotted text ----

  function Octets(n: nat): (r: seq<nat>)
    requires n < WORD
    ensures |r| == 4 && forall i :: 0 <= i < 4 ==> r[i] < 0x100
    ensures n == r[0] * 0x100_0000 + r[1] * 0x1_0000 + r[2] * 0x100 + r[3]
  {
    [n / 0x100 / 0x100 / 0x100, n / 0x100 / 0x100 % 0x100, n / 0x100 % 0x100, n % 0x100]
  }

  function OctetTexts(n: nat): (r: seq<string>)
    requires n < WORD
    ensures |r| == 4 && forall i :: 0 <= i < 4 ==> Canonical(r[i]) && r[i] == Itoa(Octets(n)[i])
  {
    var o := Octets(n);
    [Itoa(o[0]), Itoa(o[1]), Itoa(o[2]), Itoa(o[3])]
  }

  /** net.IP.String for an IPv4 address. */
  function Dotted(n: nat): string
    requires n < WORD
  {
    Join(OctetTexts(n), '.')
  }

  lemma SplitDotted(n: nat)
    requires n < WORD
    ensures Split(Dotted(n), '.') == OctetTexts(n)
  {
    var parts := OctetTexts(n);
    forall i | 0 <= i < 4 ensures '.' !in parts[i] {
      DigitsFree(parts[i], '.');
    }
    SplitJoinPlain(parts, '.');
  }

  lemma DottedInjective(m: nat, n: nat)
    requires m < WORD && n < WORD && Dotted(m) == Dotted(n)
    ensures m == n
  {
    SplitDotted(m);
    SplitDotted(n);
    forall i | 0 <= i < 4 ensures Octets(m)[i] == Octets(n)[i] {
      assert OctetTexts(m)[i] == OctetTexts(n)[i];
      ItoaInjective(Octets(m)[i], Octets(n)[i]);
    }
  }

  /** Dotted text is digits and dots only. */
  lemma DottedChars(n: nat, c: char)
    requires n < WORD && !IsDigit(c) && c != '.'
    ensures c !in Dotted(n) && Dotted(n) != ""
  {
    var p := OctetTexts(n);
    assert Dotted(n) == p[0] + "." + (p[1] + "." + (p[2] + "." + p[3])) by {
      assert Join(p[3..], '.') == p[3];
      assert Join(p[2..], '.') == p[2] + "." + Join(p[2..][1..], '.') && p[2..][1..] == p[3..];
      assert Join(p[1..], '.') == p[1] + "." + Join(p[1..][1..], '.') && p[1..][1..] == p[2..];
    }
    forall i | 0 <= i < 4 ensures c !in p[i] {
      DigitsFree(p[i], c);
    }
  }

  predicate OctetText(s: string) {
    Canonical(s) && Numeral(s) <= 255
  }

  /** A canonical dotted quad: four numerals up to 255, none with a superfluous zero. */
  predicate IsQuad(s: string) {
    var parts := Split(s, '.');
    |parts| == 4 && OctetText(parts[0]) && OctetText(parts[1]) && OctetText(parts[2]) && OctetText(parts[3])
  }

  function QuadNumber(s: string): (n: nat)
    requires IsQuad(s)
    ensures n < WORD
  {
    var p := Split(s, '.');
    Numeral(p[0]) * 0x100_0000 + Numeral(p[1]) * 0x1_0000 + Numeral(p[2]) * 0x100 + Numeral(p[3])
  }

  lemma OctetsUnique(n: nat, a: nat, b: nat, c: nat, d: nat)
    requires a < 0x100 && b < 0x100 && c < 0x100 && d < 0x100
    requires n == a * 0x100_0000 + b * 0x1_0000 + c * 0x100 + d
    ensures n < WORD && Octets(n) == [a, b, c, d]
  {
    assert n / 0x100 == a * 0x1_0000 + b * 0x100 + c;
    assert n / 0x100 / 0x100 == a * 0x100 + b;
  }

  /** Dotted text is a canonical quad, and every canonical quad is the text of its number. */
  lemma DottedQuad(n: nat)
    requires n < WORD
    ensures IsQuad(Dotted(n)) && QuadNumber(Dotted(n)) == n
  {
    SplitDotted(n);
    forall i | 0 <= i < 4 ensures Numeral(OctetTexts(n)[i]) == Octets(n)[i] {
      NumeralItoa(Octets(n)[i]);
    }
  }

  lemma QuadDotted(s: string)
    requires IsQuad(s)
    ensures Dotted(QuadNumber(s)) == s
  {
    var p := Split(s, '.');
    var n := QuadNumber(s);
    OctetsUnique(n, Numeral(p[0]), Numeral(p[1]), Numeral(p[2]), Numeral(p[3]));
    forall i | 0 <= i < 4 ensures OctetTexts(n)[i] == p[i] {
      ItoaNumeral(p[i]);
    }
    assert OctetTexts(n) == p;
    JoinSplit(s, '.');
  }

  // ---- the endpoint key conversions of the vxlan plugin ----

  /** Conversion of a Go int to uint32 keeps the low 32 bits. */
  function ToUint32(i: int): (n: nat)
    ensures n < WORD
  {
    i % WORD
  }

  /** In range an int keeps its value, and a negative one counts down from the top of the word. */
  lemma ToUint32Keeps(i: int)
    ensures 0 <= i < 0x1_0000_0000 ==> ToUint32(i) == i
    ensures -0x1_0000_0000 <= i < 0 ==> ToUint32(i) == i + 0x1_0000_0000
  {
  }

  function UInt32ToInetIP(ip: nat): string
    requires ip < WORD
  {
    var p0 := And(Shr(ip, 24), 0xff);
    var p1 := And(Shr(ip, 16), 0xff);
    var p2 := And(Shr(ip, 8), 0xff);
    var p3 := And(ip, 0xff);
    Join([Itoa(p0), Itoa(p1), Itoa(p2), Itoa(p3)], '.')
  }

  /** On any text of at least four pieces, canonical or not, the key is the weighted sum of the numbers of
      the first four, in a 32-bit word. */
  lemma InetValueIsSum(ip: string)
    ensures var parts := Split(ip, '.');
            && (InetValue(ip).None? <==> |parts| < 4)
            && (|parts| >= 4 ==>
                  InetValue(ip) == Some((Atoi(parts[0]) * 0x100_0000 + Atoi(parts[1]) * 0x1_0000
                                         + Atoi(parts[2]) * 0x100 + Atoi(parts[3])) % 0x1_0000_0000))
  {
    var parts := Split(ip, '.');
    if |parts| >= 4 {
      PiecesSum(Atoi(parts[0]), Atoi(parts[1]), Atoi(parts[2]), Atoi(parts[3]));
    }
  }

  lemma PiecesSum(a: int, b: int, c: int, d: int)
    ensures Add32(Add32(Add32(Shl(ToUint32(a), 24), Shl(ToUint32(b), 16)), Shl(ToUint32(c), 8)), ToUint32(d)) ==
            (a * 0x100_0000 + b * 0x1_0000 + c * 0x100 + d) % 0x1_0000_0000
  {
    ShlOfInt(a, 24, 0x100_0000);
    ShlOfInt(b, 16, 0x1_0000);
    ShlOfInt(c, 8, 0x100);
    AddOfInts(a * 0x100_0000, b * 0x1_0000);
    AddOfInts(a * 0x100_0000 + b * 0x1_0000, c * 0x100);
    AddOfInts(a * 0x100_0000 + b * 0x1_0000 + c * 0x100, d);
  }

  lemma ShlOfInt(i: int, k: nat, m: nat)
    requires (k == 8 && m == 0x100) || (k == 16 && m == 0x1_0000) || (k == 24 && m == 0x100_0000)
    ensures Shl(ToUint32(i), k) == ToUint32(i * m)
  {
    Pow2Values();
    var q := i / WORD;
    assert i == q * WORD + ToUint32(i);
    assert i * m == (q * m) * WORD + ToUint32(i) * m;
    WholeWords(ToUint32(i) * m, q * m);
  }

  lemma AddOfInts(x: int, y: int)
    ensures Add32(ToUint32(x), ToUint32(y)) == ToUint32(x + y)
  {
    var p, q := x / WORD, y / WORD;
    assert x + y == (p + q) * WORD + (ToUint32(x) + ToUint32(y));
    WholeWords(ToUint32(x) + ToUint32(y), p + q);
  }

  /** Whole words do not count. */
  lemma WholeWords(x: int, q: int)
    ensures ToUint32(q * WORD + x) == ToUint32(x)
  {
    DivModUnique(q * WORD + x, WORD, q + x / WORD, x % WORD);
  }

  /** What InetIpToUInt32 computes; None where it indexes past the pieces of the text. */
  function InetValue(ip: string): (r: Option<nat>)
    ensures r.Some? ==> r.value < WORD
  {
    var parts := Split(ip, '.');
    if |parts| < 4 then None else Some(PiecesValue(parts))
  }

  function PiecesValue(parts: seq<string>): (n: nat)
    requires |parts| >= 4
    ensures n < WORD
  {
    var high := Add32(Shl(ToUint32(Atoi(parts[0])), 24), Shl(ToUint32(Atoi(parts[1])), 16));
    Add32(Add32(high, Shl(ToUint32(Atoi(parts[2])), 8)), ToUint32(Atoi(parts[3])))
  }

  method InetIpToUInt32(ip: string) returns (r: Option<nat>)
    ensures r == InetValue(ip)
    ensures IsQuad(ip) ==> r == Some(QuadNumber(ip))
  {
    var parts := Split(ip, '.');
    if |parts| < 4 {
      return None;
    }
    var b0, b1, b2, b3 := Atoi(parts[0]), Atoi(parts[1]), Atoi(parts[2]), Atoi(parts[3]);
    var sum: nat := 0;
    sum := Add32(sum, Shl(ToUint32(b0), 24));
    sum := Add32(sum, Shl(ToUint32(b1), 16));
    sum := Add32(sum, Shl(ToUint32(b2), 8));
    sum := Add32(sum, ToUint32(b3));
    if IsQuad(ip) {
      InetValueOfQuad(ip);
    }
    r := Some(sum);
  }

  lemma ShiftOctet(v: nat)
    requires v < 0x100
    ensures Shl(v, 24) == v * 0x100_0000 && Shl(v, 16) == v * 0x1_0000 && Shl(v, 8) == v * 0x100
  {
    Pow2Values();
  }

  lemma InetValueOfQuad(s: string)
    requires IsQuad(s)
    ensures InetValue(s) == Some(QuadNumber(s))
  {
    PiecesOfQuad(Split(s, '.'));
  }

  lemma PiecesOfQuad(p: seq<string>)
    requires |p| == 4 && OctetText(p[0]) && OctetText(p[1]) && OctetText(p[2]) && OctetText(p[3])
    ensures PiecesValue(p) ==
            Numeral(p[0]) * 0x100_0000 + Numeral(p[1]) * 0x1_0000 + Numeral(p[2]) * 0x100 + Numeral(p[3])
  {
    AtoiOctet(p[0]);
    AtoiOctet(p[1]);
    AtoiOctet(p[2]);
    AtoiOctet(p[3]);
    SumOctets(Numeral(p[0]), Numeral(p[1]), Numeral(p[2]), Numeral(p[3]));
  }

  lemma SumOctets(a: nat, b: nat, c: nat, d: nat)
    requires a < 0x100 && b < 0x100 && c < 0x100 && d < 0x100
    ensures Add32(Add32(Add32(Shl(a, 24), Shl(b, 16)), Shl(c, 8)), d) == a * 0x100_0000 + b * 0x1_0000 + c * 0x100 + d
  {
    ShiftOctet(a);
    ShiftOctet(b);
    ShiftOctet(c);
  }

  lemma AtoiOctet(s: string)
    requires OctetText(s)
    ensures ToUint32(Atoi(s)) == Numeral(s)
  {
    ItoaNumeral(s);
    AtoiItoa(Numeral(s));
  }

  lemma SmallRemainder(x: nat)
    requires x < 0x100
    ensures x % 0x100 == x
  {
  }

  lemma ShiftedOctets(n: nat)
    requires n < WORD
    ensures And(Shr(n, 24), 0xff) == Octets(n)[0] && And(Shr(n, 16), 0xff) == Octets(n)[1]
    ensures And(Shr(n, 8), 0xff) == Octets(n)[2] && And(n, 0xff) == Octets(n)[3]
  {
    ShiftsDivide(n);
    LowByte(n / 0x100 / 0x100 / 0x100);
    LowByte(n / 0x100 / 0x100);
    LowByte(n / 0x100);
    LowByte(n);
    SmallRemainder(Octets(n)[0]);
  }

  /** The shifts and masks extract the octets. */
  lemma UInt32ToInetIPIsDotted(n: nat)
    requires n < WORD
    ensures UInt32ToInetIP(n) == Dotted(n)
  {
    ShiftedOctets(n);
  }

  /** Parsing undoes printing on every 32-bit number. */
  lemma ParseAfterPrint(n: nat)
    requires n < WORD
    ensures InetValue(UInt32ToInetIP(n)) == Some(n)
  {
    UInt32ToInetIPIsDotted(n);
    DottedQuad(n);
    InetValueOfQuad(Dotted(n));
  }

  /** Printing undoes parsing on the canonical dotted quads and on no other text. */
  lemma PrintAfterParse(s: string)
    ensures match InetValue(s)
            case None => !IsQuad(s)
            case Some(n) => UInt32ToInetIP(n) == s <==> IsQuad(s)
  {
    if InetValue(s).Some? {
      var n := InetValue(s).value;
      UInt32ToInetIPIsDotted(n);
      DottedQuad(n);
      if IsQuad(s) {
        InetValueOfQuad(s);
        QuadDotted(s);
      }
    }
  }

  /** The endpoint map key distinguishes all canonical addresses. */
  lemma KeyInjective(s: string, t: string)
    ensures IsQuad(s) && IsQuad(t) ==> (InetValue(s) == InetValue(t) <==> s == t)
  {
    if IsQuad(s) && IsQuad(t) {
      PrintAfterParse(s);
      PrintAfterParse(t);
    }
  }

  // ---- CIDR text ----

  datatype Cidr = Cidr(ip: nat, net: IPNet)

  /** net.ParseCIDR on IPv4 text: the address, and the network it lies in. */
  function ParseCIDR(s: string): (r: Option<Cidr>)
    ensures r.Some? ==> r.value.ip < WORD && r.value.net.Wf()
  {
    var parts := Split(s, '/');
    if |parts| != 2 || !IsQuad(parts[0]) || parts[1] == "" || !AllDigits(parts[1]) || Numeral(parts[1]) > 32 then None
    else
      var ip := QuadNumber(parts[0]);
      var bits := Numeral(parts[1]);
      var net := IPNet(And(ip, HighOnes(32, 32 - bits)), bits);
      NetworkWf(ip, bits);
      Some(Cidr(ip, net))
  }

  lemma NetworkWf(ip: nat, bits: nat)
    requires ip < WORD && bits <= 32
    ensures IPNet(And(ip, HighOnes(32, 32 - bits)), bits).Wf()
  {
    var net := IPNet(And(ip, HighOnes(32, 32 - bits)), bits);
    MaskClears(net, ip);
    FloorIsAligned(ip, net.Size());
    WfAligned(net);
  }

  function CidrText(ip: nat, bits: nat): string
    requires ip < WORD
  {
    Dotted(ip) + "/" + Itoa(bits)
  }

  lemma ParseCidrText(ip: nat, bits: nat)
    requires ip < WORD && bits <= 32
    ensures Split(CidrText(ip, bits), '/') == [Dotted(ip), Itoa(bits)]
    ensures var r := ParseCIDR(CidrText(ip, bits)); r.Some? && r.value.ip == ip && r.value.net.bits == bits
  {
    DottedChars(ip, '/');
    DigitsFree(Itoa(bits), '/');
    SplitFirst(Dotted(ip), '/', Itoa(bits));
    SplitPlain(Itoa(bits), '/');
    assert Dotted(ip) + ['/'] + Itoa(bits) == CidrText(ip, bits);
    DottedQuad(ip);
    NumeralItoa(bits);
  }

  /** The network of a CIDR is the one of its prefix length that the address written in it lies in. */
  lemma ParsedContains(s: string)
    requires ParseCIDR(s).Some?
    ensures var c := ParseCIDR(s).value;
            && c.net.Contains(c.ip) && c.net.base <= c.ip <= c.net.Top()
            && (forall net: IPNet :: net.Wf() && net.bits == c.net.bits && net.Contains(c.ip) ==> net == c.net)
  {
    var c := ParseCIDR(s).value;
    ContainsIsRange(c.net, c.ip);
  }

  /** The texts net.ParseCIDR accepts: an address, a slash, and a numeral of at most 32. */
  lemma ParsesIff(s: string)
    ensures ParseCIDR(s).Some? <==>
            exists ip: nat, t: string ::
              ip < WORD && t != "" && AllDigits(t) && Numeral(t) <= 32 && s == Dotted(ip) + "/" + t
    ensures forall ip: nat, t: string :: ip < WORD && t != "" && AllDigits(t) && s == Dotted(ip) + "/" + t ==>
              ParseCIDR(s).Some? ==> ParseCIDR(s).value.ip == ip && ParseCIDR(s).value.net.bits == Numeral(t)
  {
    if ParseCIDR(s).Some? {
      var parts := Split(s, '/');
      JoinSplit(s, '/');
      QuadDotted(parts[0]);
      assert parts[1..][0] == parts[1] && |parts[1..]| == 1;
      assert s == Dotted(QuadNumber(parts[0])) + "/" + parts[1];
    }
    forall ip: nat, t: string | ip < WORD && t != "" && AllDigits(t) && s == Dotted(ip) + "/" + t
      ensures Split(s, '/') == [Dotted(ip), t] && IsQuad(Dotted(ip)) && QuadNumber(Dotted(ip)) == ip
    {
      DottedChars(ip, '/');
      DigitsFree(t, '/');
      SplitFirst(Dotted(ip), '/', t);
      SplitPlain(t, '/');
      assert Dotted(ip) + ['/'] + t == s;
      DottedQuad(ip);
    }
  }

  /** The text of a network's own address parses to that network. */
  lemma ParseNetworkText(net: IPNet)
    requires net.Wf()
    ensures ParseCIDR(CidrText(net.base, net.bits)) == Some(Cidr(net.base, net))
  {
    ParseCidrText(net.base, net.bits);
  }
}
