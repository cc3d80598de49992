/** Address lists and gateways of CIDR text (utils/conf_helper.go). */
module CidrList {
  import opened Bags
  import opened Bits
  import opened Ipv4
  import opened Results
  import opened Text

  // ---- which addresses are listed ----

  /** The textual filter: the last dotted piece is 0, 1 or 255. */
  predicate InvalidIP(ip: string) {
    var parts := Split(ip, '.');
    var n := |parts| - 1;
    parts[n] == "0" || parts[n] == "1" || parts[n] == "255"
  }

  predicate Usable(n: nat) {
    n % 256 != 0 && n % 256 != 1 && n % 256 != 255
  }

  /** On the text of an address the textual filter is the numeric one. */
  lemma InvalidIPIsNumeric(n: nat)
    requires n < WORD
    ensures InvalidIP(Dotted(n)) <==> n % 256 == 0 || n % 256 == 1 || n % 256 == 255
  {
    SplitDotted(n);
    var last := Octets(n)[3];
    assert Itoa(0) == "0" && Itoa(1) == "1";
    assert Itoa(255) == Itoa(25) + "5" && Itoa(25) == Itoa(2) + "5" && Itoa(2) == "2";
    if Itoa(last) == "0" { ItoaInjective(last, 0); }
    if Itoa(last) == "1" { ItoaInjective(last, 1); }
    if Itoa(last) == "255" { ItoaInjective(last, 255); }
  }

  predicate Ascending(s: seq<nat>) {
    forall i, j :: 0 <= i < j < |s| ==> s[i] < s[j]
  }

  /** The usable numbers from lo up to but not including hi, in order. */
  function UsableIn(lo: nat, hi: nat): (r: seq<nat>)
    ensures forall x :: x in r <==> lo <= x < hi && Usable(x)
    ensures Ascending(r)
    decreases hi
  {
    if hi <= lo then []
    else
      var rest := UsableIn(lo, hi - 1);
      assert forall i :: 0 <= i < |rest| ==> rest[i] in rest;
      if Usable(hi - 1) then rest + [hi - 1] else rest
  }

  predicate Words(nums: seq<nat>) {
    forall i :: 0 <= i < |nums| ==> nums[i] < WORD
  }

  function Token(n: nat, suffix: string): string
    requires n < WORD
  {
    Dotted(n) + "/" + suffix
  }

  function Tokens(nums: seq<nat>, suffix: string): (r: seq<string>)
    requires Words(nums)
    ensures |r| == |nums| && forall i :: 0 <= i < |r| ==> r[i] == Token(nums[i], suffix)
  {
    seq(|nums|, i requires 0 <= i < |nums| => Token(nums[i], suffix))
  }

  lemma UsableWords(lo: nat, hi: nat)
    requires hi <= WORD
    ensures Words(UsableIn(lo, hi))
  {
    var r := UsableIn(lo, hi);
    assert forall i :: 0 <= i < |r| ==> r[i] in r;
  }

  datatype ListError = NotCidr | Unparsable

  /** What GetValidIps returns when its loop ends. */
  function ValidIps(cidr: string): Result<seq<string>, ListError> {
    var sp := Split(cidr, '/');
    if |sp| < 2 then Err(NotCidr)
    else
      match ParseCIDR(cidr)
      case None => Err(Unparsable)
      case Some(c) =>
        Ok(Listed(c.net, sp[1]))
  }

  /** The listing fails exactly on texts that do not parse, and tells a missing slash from other faults. */
  lemma ListingFailsIff(cidr: string)
    ensures ValidIps(cidr).Err? <==> ParseCIDR(cidr).None?
    ensures ValidIps(cidr) == Err(NotCidr) <==> '/' !in cidr
  {
    SplitCount(cidr, '/');
  }

  /** The usable numbers of a network, and their texts with the prefix length they were given with. */
  function UsableOf(net: IPNet): (nums: seq<nat>)
    requires net.Wf()
    ensures Words(nums)
  {
    TopInWord(net);
    UsableWords(net.base, net.Top() + 1);
    UsableIn(net.base, net.Top() + 1)
  }

  function Listed(net: IPNet, suffix: string): seq<string>
    requires net.Wf()
  {
    Tokens(UsableOf(net), suffix)
  }

  /** The subnet's last address is 255.255.255.255, where the uint32 counter wraps. */
  predicate ReachesTop(cidr: string) {
    match ParseCIDR(cidr)
    case None => false
    case Some(c) => c.net.Top() == WORD - 1
  }

  function Fin(net: IPNet): nat
    requires net.bits <= 32
  {
    Or(And(net.base, net.Mask()), Xor(net.Mask(), 0xffff_ffff))
  }

  /** The mask arithmetic of the loop bound yields the subnet's last address. */
  lemma FinIsTop(net: IPNet)
    requires net.Wf()
    ensures Fin(net) == net.Top()
  {
    MaskComplement(net);
    WfAligned(net);
    FillLow(net.base, 32 - net.bits, net.Mask());
  }

  lemma FillLow(base: nat, k: nat, mask: nat)
    requires base % Pow2(k) == 0 && And(base, mask) == base && Xor(mask, 0xffff_ffff) == Pow2(k) - 1
    ensures Or(And(base, mask), Xor(mask, 0xffff_ffff)) == base + Pow2(k) - 1
  {
    OrLowOnes(base, k);
  }

  lemma MaskComplement(net: IPNet)
    requires net.bits <= 32
    ensures Xor(net.Mask(), 0xffff_ffff) == net.Size() - 1
  {
    Pow2Values();
    XorOnes(32, net.Mask());
  }

  method LastAddress(net: IPNet) returns (fin: nat)
    requires net.Wf()
    ensures fin == net.Top() < WORD
  {
    var mask, start := net.Mask(), net.base;
    fin := Or(And(start, mask), Xor(mask, 0xffff_ffff));
    FinIsTop(net);
    TopInWord(net);
  }

  /** The listing loop; a counter at 255.255.255.255 would wrap and never pass fin. */
  method ListRange(start: nat, fin: nat, suffix: string) returns (ips: seq<string>)
    requires start <= fin < WORD - 1
    ensures Words(UsableIn(start, fin + 1)) && ips == Tokens(UsableIn(start, fin + 1), suffix)
  {
    ips := [];
    var i := start;
    while i <= fin
      invariant start <= i <= fin + 1
      invariant Words(UsableIn(start, i)) && ips == Tokens(UsableIn(start, i), suffix)
      decreases fin + 1 - i
    {
      var text := Dotted(i);
      InvalidIPIsNumeric(i);
      ListOneMore(start, i, suffix);
      if !InvalidIP(text) {
        ips := ips + [text + "/" + suffix];
      }
      i := Add32(i, 1);
    }
  }

  method ListIPv4Addr(cidr: string) returns (r: Result<seq<string>, ListError>)
    requires !ReachesTop(cidr)
    ensures r == ValidIps(cidr)
  {
    var sp := Split(cidr, '/');
    if |sp| < 2 {
      return Err(NotCidr);
    }
    var parsed := ParseCIDR(cidr);
    if parsed.None? {
      return Err(Unparsable);
    }
    var net := parsed.value.net;
    var fin := LastAddress(net);
    var ips := ListRange(net.base, fin, sp[1]);
    r := Ok(ips);
  }

  lemma ListOneMore(lo: nat, hi: nat, suffix: string)
    requires lo <= hi < WORD
    ensures Words(UsableIn(lo, hi)) && Words(UsableIn(lo, hi + 1))
    ensures Tokens(UsableIn(lo, hi + 1), suffix) ==
            Tokens(UsableIn(lo, hi), suffix) + (if Usable(hi) then [Token(hi, suffix)] else [])
  {
    UsableWords(lo, hi);
    UsableWords(lo, hi + 1);
  }

  /** The loop counter after k increments. */
  function Counter(start: nat, k: nat): nat {
    if k == 0 then start else Add32(Counter(start, k - 1), 1)
  }

  lemma {:induction false} CounterAt(start: nat, k: nat)
    requires start + k < WORD
    ensures Counter(start, k) == start + k
  {
    if k > 0 {
      CounterAt(start, k - 1);
    }
  }

  /** The enumeration ends for every CIDR except those whose last address is 255.255.255.255. */
  lemma LoopEndsIff(net: IPNet)
    requires net.Wf()
    ensures (exists k :: Counter(net.base, k) > Fin(net)) <==> net.Top() < WORD - 1
  {
    FinIsTop(net);
    TopInWord(net);
    if net.Top() < WORD - 1 {
      var k := net.Top() + 1 - net.base;
      CounterAt(net.base, k);
      assert Counter(net.base, k) > Fin(net);
    } else {
      forall k: nat ensures Counter(net.base, k) <= Fin(net) {
        if k > 0 {
          assert Counter(net.base, k) == Add32(Counter(net.base, k - 1), 1);
        }
      }
    }
  }

  // ---- how many are listed ----

  /** The number of usable addresses from lo up to hi. */
  function CountIn(lo: nat, hi: nat): nat
    decreases hi
  {
    if hi <= lo then 0 else CountIn(lo, hi - 1) + (if Usable(hi - 1) then 1 else 0)
  }

  lemma {:induction false} LengthIsCount(lo: nat, hi: nat)
    ensures |UsableIn(lo, hi)| == CountIn(lo, hi)
    decreases hi
  {
    if lo < hi {
      LengthIsCount(lo, hi - 1);
    }
  }

  /** Usable addresses among the first v of a block of 256. */
  function UsableBelow(v: nat): nat {
    if v <= 1 then 0 else if v <= 255 then v - 2 else 253
  }

  lemma OffsetInBlock(b: nat, v: nat)
    requires b % 256 == 0 && v < 256
    ensures (b + v) % 256 == v
  {
  }

  lemma {:induction false} CountAppend(lo: nat, mid: nat, hi: nat)
    requires lo <= mid <= hi
    ensures CountIn(lo, hi) == CountIn(lo, mid) + CountIn(mid, hi)
    decreases hi
  {
    if mid < hi {
      CountAppend(lo, mid, hi - 1);
    }
  }

  lemma PartBlockStep(b: nat, v: nat)
    requires b % 256 == 0 && v < 256
    ensures CountIn(b, b + v + 1) == CountIn(b, b + v) + (if 2 <= v <= 254 then 1 else 0)
  {
    OffsetInBlock(b, v);
  }

  lemma {:induction false} CountPartBlock(b: nat, v: nat)
    requires b % 256 == 0 && v <= 256
    ensures CountIn(b, b + v) == UsableBelow(v)
    decreases v
  {
    if v > 0 {
      var u := v - 1;
      CountPartBlock(b, u);
      assert b + v == b + u + 1;
      PartBlockStep(b, u);
    }
  }

  lemma {:induction false} CountBlocks(b: nat, end: nat, k: nat)
    requires b % 256 == 0 && end == b + 256 * k
    ensures CountIn(b, end) == 253 * k
    decreases k
  {
    if k > 0 {
      OneBlock(b);
      CountBlocks(b + 256, end, k - 1);
      CountAppend(b, b + 256, end);
    }
  }

  lemma OneBlock(b: nat)
    requires b % 256 == 0
    ensures CountIn(b, b + 256) == 253 && (b + 256) % 256 == 0
  {
    CountPartBlock(b, 256);
  }

  lemma WideAligned(base: nat, size: nat, m: nat)
    requires m > 0 && size == m * 256 && base % size == 0
    ensures base % 256 == 0
  {
    var q := base / size;
    assert base == q * (m * 256) == (q * m) * 256;
    DivModUnique(base, 256, q * m, 0);
  }

  lemma WideNetworkIsBlocks(net: IPNet)
    requires net.Wf() && net.bits <= 24
    ensures net.Size() == 256 * Pow2(24 - net.bits) && net.base % 256 == 0
  {
    WfAligned(net);
    Pow2Values();
    Pow2Add(8, 24 - net.bits);
    WideAligned(net.base, net.Size(), Pow2(24 - net.bits));
  }

  /** A subnet smaller than a block lies inside one block. */
  lemma NarrowFits(net: IPNet)
    requires net.Wf() && net.bits > 24
    ensures net.base % 256 + net.Size() <= 256
  {
    NarrowBlock(net);
    AlignedInBlock(net.base, net.Size(), Pow2(net.bits - 24));
  }

  /** It is aligned to its own size there. */
  lemma NarrowAligned(net: IPNet)
    requires net.Wf() && net.bits > 24
    ensures (net.base % 256) % net.Size() == 0
    ensures net.bits <= 31 ==> net.Size() >= 2
  {
    NarrowBlock(net);
    AlignedInBlock(net.base, net.Size(), Pow2(net.bits - 24));
    if net.bits <= 31 {
      Pow2Monotone(1, 32 - net.bits);
    }
  }

  lemma NarrowBlock(net: IPNet)
    requires net.Wf() && net.bits > 24
    ensures Pow2(net.bits - 24) * net.Size() == 256 && net.base % net.Size() == 0
  {
    WfAligned(net);
    Pow2Values();
    Pow2Add(net.bits - 24, 32 - net.bits);
  }

  lemma AlignedInBlock(base: nat, size: nat, m: nat)
    requires size > 0 && m * size == 256 && base % size == 0
    ensures base % 256 + size <= 256 && (base % 256) % size == 0
  {
    var u, b, q := base % 256, base / 256, base / size;
    assert base == q * size && base == b * 256 + u;
    assert b * (m * size) == (b * m) * size;
    assert u == (q - b * m) * size;
    MulStep(q - b * m, size);
    DivModUnique(u, size, q - b * m, 0);
    BlockFits(u, size, m);
  }

  /** Exact enumeration: the listed addresses are, in ascending order and without repetition,
      the usable addresses of the subnet, each with the prefix text it was given with. */
  lemma EnumerationExact(cidr: string)
    requires ParseCIDR(cidr).Some?
    ensures ValidIps(cidr).Ok?
    ensures var net := ParseCIDR(cidr).value.net;
            exists nums :: Listing(cidr, net, nums)
  {
    var net := ParseCIDR(cidr).value.net;
    var nums := UsableOf(net);
    TopInWord(net);
    forall x | 0 <= x < WORD ensures x in nums <==> net.Contains(x) && Usable(x) {
      ContainsIsRange(net, x);
    }
    TokensDistinct(nums, Split(cidr, '/')[1]);
    CountUsable(net);
    assert Listing(cidr, net, nums);
  }

  ghost predicate Listing(cidr: string, net: IPNet, nums: seq<nat>)
    requires net.bits <= 32
  {
    && Ascending(nums)
    && Words(nums)
    && (forall x: nat :: x < WORD ==>
          (x in nums <==> net.Contains(x) && x % 256 != 0 && x % 256 != 1 && x % 256 != 255))
    && |Split(cidr, '/')| == 2
    && ValidIps(cidr) == Ok(Tokens(nums, Split(cidr, '/')[1]))
    && NoRepeats(ValidIps(cidr).value)
    && |nums| == (if net.bits <= 24 then 253 * Pow2(24 - net.bits)
                  else UsableBelow(net.base % 256 + net.Size()) - UsableBelow(net.base % 256))
  }

  lemma CountUsable(net: IPNet)
    requires net.Wf()
    ensures |UsableOf(net)| ==
            (if net.bits <= 24 then 253 * Pow2(24 - net.bits)
             else UsableBelow(net.base % 256 + net.Size()) - UsableBelow(net.base % 256))
  {
    UsableOfIs(net);
    LengthIsCount(net.base, net.base + net.Size());
    if net.bits <= 24 {
      WideNetworkIsBlocks(net);
      CountWide(net.base, net.Size(), Pow2(24 - net.bits));
    } else {
      NarrowFits(net);
      CountInBlock(net.base, net.Size());
    }
  }

  lemma UsableOfIs(net: IPNet)
    requires net.Wf()
    ensures UsableOf(net) == UsableIn(net.base, net.base + net.Size())
  {
    assert net.Top() + 1 == net.base + net.Size();
  }

  lemma CountWide(base: nat, size: nat, m: nat)
    requires size == 256 * m && base % 256 == 0
    ensures CountIn(base, base + size) == 253 * m
  {
    CountBlocks(base, base + size, m);
  }

  lemma CountInBlock(base: nat, size: nat)
    requires base % 256 + size <= 256
    ensures CountIn(base, base + size) == UsableBelow(base % 256 + size) - UsableBelow(base % 256)
  {
    var u := base % 256;
    FloorIsAligned(base, 256);
    CountBetween(base - u, u, u + size);
  }

  lemma CountBetween(b: nat, u: nat, v: nat)
    requires b % 256 == 0 && u <= v <= 256
    ensures CountIn(b + u, b + v) == UsableBelow(v) - UsableBelow(u)
  {
    CountAppend(b, b + u, b + v);
    CountPartBlock(b, u);
    CountPartBlock(b, v);
  }

  lemma TokenInjective(m: nat, n: nat, suffix: string)
    requires m < WORD && n < WORD && Token(m, suffix) == Token(n, suffix)
    ensures m == n
  {
    DottedChars(m, '/');
    DottedChars(n, '/');
    SplitFirst(Dotted(m), '/', suffix);
    SplitFirst(Dotted(n), '/', suffix);
    assert Dotted(m) == Split(Token(m, suffix), '/')[0];
    assert Dotted(n) == Split(Token(n, suffix), '/')[0];
    DottedInjective(m, n);
  }

  lemma TokensDistinct(nums: seq<nat>, suffix: string)
    requires Ascending(nums) && Words(nums)
    ensures NoRepeats(Tokens(nums, suffix))
  {
    forall i, j | 0 <= i < j < |nums| ensures Tokens(nums, suffix)[i] != Tokens(nums, suffix)[j] {
      if Tokens(nums, suffix)[i] == Tokens(nums, suffix)[j] {
        TokenInjective(nums[i], nums[j], suffix);
      }
    }
  }

  // ---- the gateway of a CIDR ----

  /** What GetGateway computes; None where it indexes past the pieces of the text. */
  function Gateway(givenIP: string): Option<string> {
    var segs := Split(givenIP, '/');
    var parts := Split(segs[0], '.');
    if |segs| < 2 then None
    else Some(Join(parts[|parts| - 1 := "1"], '.') + "/" + segs[1])
  }

  /** A CIDR without a slash panics; on the text of an address the last octet becomes 1. */
  method GetGateway(givenIP: string) returns (r: Option<string>)
    ensures r == Gateway(givenIP)
    ensures r.None? <==> '/' !in givenIP
    ensures forall n: nat, bits: nat :: n < WORD && bits <= 32 && givenIP == CidrText(n, bits) ==>
              r == Some(CidrText(GatewayNumber(n), bits))
  {
    SplitCount(givenIP, '/');
    forall n: nat, bits: nat | n < WORD && bits <= 32 && givenIP == CidrText(n, bits)
      ensures Gateway(givenIP) == Some(CidrText(GatewayNumber(n), bits))
    {
      GatewayIsNumeric(givenIP, n, bits);
    }
    var segs := Split(givenIP, '/');
    var ipPart := Split(segs[0], '.');
    var n := |ipPart|;
    ipPart := ipPart[n - 1 := "1"];
    var ip := Join(ipPart, '.');
    if |segs| < 2 {
      return None;
    }
    r := Some(ip + "/" + segs[1]);
  }

  /** On any text, the last dotted piece before the first slash gives way to 1, the prefix length after it
      stays, and what follows a second slash is dropped. */
  lemma GatewayReplacesLast(front: string, last: string, prefix: string, rest: string)
    requires '/' !in front && '/' !in last && '.' !in last && '/' !in prefix
    ensures Gateway(last + "/" + prefix) == Gateway(last + "/" + prefix + "/" + rest) == Some("1/" + prefix)
    ensures var address := front + "." + last;
            Gateway(address + "/" + prefix) == Gateway(address + "/" + prefix + "/" + rest)
            == Some(front + ".1/" + prefix)
  {
    var address := front + "." + last;
    SplitPlain(last, '.');
    GatewayOfSegments(last, prefix, rest);
    assert [last][0 := "1"] == ["1"] && "1" + "/" + prefix == "1/" + prefix;
    SplitLast(front, '.', last);
    GatewayOfSegments(address, prefix, rest);
    var pieces := Split(front, '.');
    assert (pieces + [last])[|pieces| := "1"] == pieces + ["1"];
    JoinLast(pieces, '.', "1");
    JoinSplit(front, '.');
    assert front + ['.'] + "1" + "/" + prefix == front + ".1/" + prefix;
  }

  lemma GatewayOfSegments(address: string, prefix: string, rest: string)
    requires '/' !in address && '/' !in prefix
    ensures var parts := Split(address, '.');
            Gateway(address + "/" + prefix) == Gateway(address + "/" + prefix + "/" + rest)
            == Some(Join(parts[|parts| - 1 := "1"], '.') + "/" + prefix)
  {
    SplitFirst(address, '/', prefix);
    SplitPlain(prefix, '/');
    SplitFirst(address, '/', prefix + "/" + rest);
    SplitFirst(prefix, '/', rest);
    assert address + ['/'] + prefix == address + "/" + prefix;
    assert address + ['/'] + (prefix + "/" + rest) == address + "/" + prefix + "/" + rest;
    assert prefix + ['/'] + rest == prefix + "/" + rest;
  }

  function GatewayNumber(n: nat): (g: nat)
    requires n < WORD
    ensures g < WORD
  {
    n - n % 256 + 1
  }

  /** Overwriting the last dotted piece replaces the last octet by 1. */
  lemma GatewayIsNumeric(text: string, n: nat, bits: nat)
    requires n < WORD && bits <= 32 && text == CidrText(n, bits)
    ensures Gateway(text) == Some(CidrText(GatewayNumber(n), bits))
  {
    ParseCidrText(n, bits);
    SplitDotted(n);
    GatewayOctets(n);
  }

  lemma GatewayOctets(n: nat)
    requires n < WORD
    ensures OctetTexts(n)[3 := "1"] == OctetTexts(GatewayNumber(n))
  {
    var o := Octets(n);
    OctetsUnique(GatewayNumber(n), o[0], o[1], o[2], 1);
    assert Itoa(1) == "1";
  }

  /** The gateway is never handed out as an address of the same CIDR. */
  lemma GatewaySeparate(n: nat, bits: nat)
    requires n < WORD && bits <= 32
    ensures ValidIps(CidrText(n, bits)).Ok? && Gateway(CidrText(n, bits)).Some?
    ensures Gateway(CidrText(n, bits)).value !in ValidIps(CidrText(n, bits)).value
  {
    GatewayIsNumeric(CidrText(n, bits), n, bits);
    ParseCidrText(n, bits);
    UnusableGateway(n);
    NotListed(ParseCIDR(CidrText(n, bits)).value.net, GatewayNumber(n), Itoa(bits));
  }

  lemma UnusableGateway(n: nat)
    requires n < WORD
    ensures !Usable(GatewayNumber(n))
  {
  }

  lemma NotListed(net: IPNet, n: nat, suffix: string)
    requires net.Wf() && n < WORD && !Usable(n)
    ensures Token(n, suffix) !in Listed(net, suffix)
  {
    var nums := UsableOf(net);
    forall i | 0 <= i < |nums| ensures Tokens(nums, suffix)[i] != Token(n, suffix) {
      assert nums[i] in nums;
      if Token(nums[i], suffix) == Token(n, suffix) {
        TokenInjective(nums[i], n, suffix);
      }
    }
  }

  /** Exactly when the gateway of a network lies inside that network. */
  lemma GatewayInsideIff(net: IPNet)
    requires net.Wf()
    ensures net.Contains(GatewayNumber(net.base)) <==>
            (net.base % 256 == 0 && net.bits <= 31) || (net.base % 256 == 1 && net.bits == 32)
  {
    var g := GatewayNumber(net.base);
    ContainsIsRange(net, g);
    if net.bits <= 24 {
      WideNetworkIsBlocks(net);
    } else {
      NarrowFits(net);
      NarrowAligned(net);
      var u := net.base % 256;
      if net.bits <= 31 && u > 0 {
        assert u >= 2 by {
          if u == 1 { DivModUnique(1, net.Size(), 0, 1); }
        }
      }
    }
  }
}
