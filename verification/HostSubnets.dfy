/** The sixteen host subnets the cluster pool is seeded with: their addresses and gateways. */
module HostSubnets {
  import opened Allocator
  import opened Bags
  import opened Bits
  import opened CidrList
  import opened EtcdClient
  import opened Ipv4
  import opened Results
  import opened Text

  /** 10.1.(i+1).0 */
  function BaseOf(i: nat): nat
    requires i < SUBNETS
  {
    0x0a01_0000 + (i + 1) * 0x100
  }

  function SubnetOf(i: nat): (net: IPNet)
    requires i < SUBNETS
  {
    IPNet(BaseOf(i), 28)
  }

  lemma BaseAligned(i: nat)
    requires i < SUBNETS
    ensures BaseOf(i) % 256 == 0 && BaseOf(i) % 16 == 0
  {
  }

  lemma SubnetShape(i: nat)
    requires i < SUBNETS
    ensures SubnetOf(i).Wf() && SubnetOf(i).Size() == 16 && BaseOf(i) % 256 == 0
    ensures SubnetOf(i).Top() + 1 == BaseOf(i) + 16
  {
    assert Pow2(4) == 16;
    BaseAligned(i);
    WfAligned(SubnetOf(i));
  }

  function SubnetIps(i: nat): (r: seq<string>)
    requires i < SUBNETS
  {
    SubnetShape(i);
    Listed(SubnetOf(i), "28")
  }

  function GatewayText(i: nat): string
    requires i < SUBNETS
  {
    CidrText(BaseOf(i) + 1, 28)
  }

  predicate GoodToken(t: string) {
    t != "" && ';' !in t
  }

  predicate GoodTokens(ts: seq<string>) {
    forall i :: 0 <= i < |ts| ==> GoodToken(ts[i])
  }

  lemma TwentyEight()
    ensures Itoa(28) == "28" && Itoa(10) == "10" && Itoa(1) == "1" && Itoa(0) == "0"
  {
    assert Itoa(2) == "2" && Itoa(28) == Itoa(2) + "8";
    assert Itoa(1) == "1" && Itoa(10) == Itoa(1) + "0";
  }

  /** 10.1.(i+1).v */
  lemma DottedInSubnet(i: nat, v: nat)
    requires i < SUBNETS && v < 16
    ensures Dotted(BaseOf(i) + v) == "10.1." + Itoa(i + 1) + "." + Itoa(v)
  {
    TwentyEight();
    var n := BaseOf(i) + v;
    OctetsUnique(n, 10, 1, i + 1, v);
    var p := OctetTexts(n);
    assert p == ["10", "1", Itoa(i + 1), Itoa(v)];
    assert Join(p[3..], '.') == Itoa(v);
    assert Join(p[2..], '.') == Itoa(i + 1) + "." + Join(p[3..], '.') by { assert p[2..][1..] == p[3..]; }
    assert Join(p[1..], '.') == "1" + "." + Join(p[2..], '.') by { assert p[1..][1..] == p[2..]; }
    assert Dotted(n) == "10" + "." + Join(p[1..], '.');
  }

  lemma SubnetIsCidr(i: nat)
    requires i < SUBNETS
    ensures SubnetText(i) == CidrText(BaseOf(i), 28)
  {
    AddressTextIs(i, 0, BaseOf(i));
    TextAtZero(i);
  }

  lemma TextAtZero(i: nat)
    ensures AddressText(i, 0) == SubnetText(i)
  {
    assert Itoa(0) == "0" && "." + "0" + "/28" == ".0/28";
    var front := "10.1." + Itoa(i + 1);
    assert front + ("." + "0" + "/28") == front + "." + "0" + "/28";
  }

  lemma SubnetParses(i: nat)
    requires i < SUBNETS
    ensures ParseCIDR(SubnetText(i)) == Some(Cidr(BaseOf(i), SubnetOf(i)))
    ensures Split(SubnetText(i), '/') == [Dotted(BaseOf(i)), "28"]
  {
    SubnetIsCidr(i);
    TwentyEight();
    SubnetShape(i);
    ParseNetworkText(SubnetOf(i));
    ParseCidrText(BaseOf(i), 28);
  }

  /** GetValidIps and GetGateway of a host subnet. */
  lemma SubnetLists(i: nat)
    requires i < SUBNETS
    ensures ValidIps(SubnetText(i)) == Ok(SubnetIps(i))
    ensures Gateway(SubnetText(i)) == Some(GatewayText(i))
  {
    SubnetParses(i);
    SubnetGateway(i);
  }

  lemma SubnetGateway(i: nat)
    requires i < SUBNETS
    ensures Gateway(SubnetText(i)) == Some(GatewayText(i))
  {
    var text, n := SubnetText(i), BaseOf(i);
    SubnetIsCidr(i);
    BaseAligned(i);
    GatewayAbove(text, n, 28);
  }

  lemma GatewayAbove(text: string, n: nat, bits: nat)
    requires n + 1 < WORD && n % 256 == 0 && bits <= 32 && text == CidrText(n, bits)
    ensures Gateway(text) == Some(CidrText(n + 1, bits))
  {
    GatewayIsNumeric(text, n, bits);
    assert GatewayNumber(n) == n + 1;
  }

  lemma SubnetCount(i: nat)
    requires i < SUBNETS
    ensures |SubnetIps(i)| == 14 && NoRepeats(SubnetIps(i))
  {
    SubnetShape(i);
    CountUsable(SubnetOf(i));
    TokensDistinct(UsableOf(SubnetOf(i)), "28");
  }

  /** An ascending list of exactly the numbers of a range lists them one by one. */
  lemma {:induction false} AscendingRange(nums: seq<nat>, lo: nat, n: nat)
    requires Ascending(nums) && forall x :: x in nums <==> lo <= x < lo + n
    ensures |nums| == n && forall k :: 0 <= k < n ==> nums[k] == lo + k
    decreases |nums|
  {
    assert lo in nums <==> n > 0;
    if nums != [] {
      var last := |nums| - 1;
      assert nums[last] in nums;
      assert lo + n - 1 in nums;
      assert nums[last] == lo + n - 1;
      var front := nums[..last];
      forall x ensures x in front <==> lo <= x < lo + n - 1 {
        assert x in nums <==> x in front || x == nums[last];
      }
      AscendingRange(front, lo, n - 1);
    }
  }

  /** Of the first sixteen addresses of a block, all but the first two are usable. */
  lemma UsableInBlock(b: nat) returns (nums: seq<nat>)
    requires b % 256 == 0
    ensures nums == UsableIn(b, b + 16) && |nums| == 14 && forall k :: 0 <= k < 14 ==> nums[k] == b + 2 + k
  {
    nums := UsableIn(b, b + 16);
    forall x: nat | b <= x < b + 16 ensures Usable(x) <==> b + 2 <= x {
      OffsetInBlock(b, x - b);
    }
    AscendingRange(nums, b + 2, 14);
  }

  lemma SubnetNumbers(i: nat, b: nat) returns (nums: seq<nat>)
    requires i < SUBNETS && b == BaseOf(i)
    ensures Words(nums) && SubnetIps(i) == Tokens(nums, "28")
    ensures |nums| == 14 && forall k :: 0 <= k < 14 ==> nums[k] == b + 2 + k
  {
    SubnetShape(i);
    UsableOfIs(SubnetOf(i));
    nums := UsableInBlock(b);
  }

  /** 10.1.(i+1).v/28 */
  function AddressText(i: nat, v: nat): string {
    "10.1." + Itoa(i + 1) + "." + Itoa(v) + "/28"
  }

  lemma AddressTextIs(i: nat, v: nat, n: nat)
    requires i < SUBNETS && v < 16 && n == BaseOf(i) + v
    ensures Token(n, "28") == CidrText(n, 28) == AddressText(i, v)
  {
    TwentyEight();
    DottedInSubnet(i, v);
    AppendTexts(Dotted(n));
  }

  lemma AppendTexts(s: string)
    ensures s + "/" + "28" == s + "/28"
  {
  }

  /** 10.1.(i+1).2/28 to 10.1.(i+1).15/28 */
  function AddressTexts(i: nat): (r: seq<string>)
    ensures |r| == 14 && forall k :: 0 <= k < 14 ==> r[k] == AddressText(i, k + 2)
  {
    seq(14, k requires 0 <= k => AddressText(i, k + 2))
  }

  lemma TokensAreTexts(nums: seq<nat>, i: nat, b: nat)
    requires i < SUBNETS && b == BaseOf(i) && Words(nums)
    requires |nums| == 14 && forall k :: 0 <= k < 14 ==> nums[k] == b + 2 + k
    ensures Tokens(nums, "28") == AddressTexts(i)
  {
    forall k | 0 <= k < 14 ensures Token(nums[k], "28") == AddressText(i, k + 2) {
      AddressTextIs(i, k + 2, nums[k]);
    }
  }

  /** The addresses and the gateway of each seeded subnet, in full: 10.1.(i+1).0/28 lists .2 to .15 and has
      the gateway .1, for i from 0 to 15. */
  lemma SubnetTexts(i: nat)
    requires i < 16
    ensures ValidIps(Subnets()[i]) == Ok(AddressTexts(i))
    ensures Gateway(Subnets()[i]) == Some(AddressText(i, 1))
  {
    AddressesAre(i, Subnets()[i]);
    GatewayIs(i, Subnets()[i]);
  }

  lemma AddressesAre(i: nat, subnet: string)
    requires i < SUBNETS && subnet == SubnetText(i)
    ensures ValidIps(subnet) == Ok(AddressTexts(i))
  {
    SubnetLists(i);
    ListedTexts(i);
  }

  lemma GatewayIs(i: nat, subnet: string)
    requires i < SUBNETS && subnet == SubnetText(i)
    ensures Gateway(subnet) == Some(AddressText(i, 1))
  {
    SubnetLists(i);
    GatewayTextIs(i);
  }

  lemma GatewayTextIs(i: nat)
    requires i < SUBNETS
    ensures GatewayText(i) == AddressText(i, 1)
  {
    AddressTextIs(i, 1, BaseOf(i) + 1);
  }

  lemma ListedTexts(i: nat)
    requires i < SUBNETS
    ensures SubnetIps(i) == AddressTexts(i)
  {
    var nums := SubnetNumbers(i, BaseOf(i));
    TokensAreTexts(nums, i, BaseOf(i));
  }

  /** What seeding writes, letter for letter. */
  lemma SeedText()
    ensures Subnets() == [
              "10.1.1.0/28", "10.1.2.0/28", "10.1.3.0/28", "10.1.4.0/28",
              "10.1.5.0/28", "10.1.6.0/28", "10.1.7.0/28", "10.1.8.0/28",
              "10.1.9.0/28", "10.1.10.0/28", "10.1.11.0/28", "10.1.12.0/28",
              "10.1.13.0/28", "10.1.14.0/28", "10.1.15.0/28", "10.1.16.0/28"]
  {
    LowSubnets();
    HighSubnets();
  }

  lemma LowSubnets()
    ensures SubnetText(0) == "10.1.1.0/28" && SubnetText(1) == "10.1.2.0/28" && SubnetText(2) == "10.1.3.0/28"
    ensures SubnetText(3) == "10.1.4.0/28" && SubnetText(4) == "10.1.5.0/28" && SubnetText(5) == "10.1.6.0/28"
    ensures SubnetText(6) == "10.1.7.0/28" && SubnetText(7) == "10.1.8.0/28" && SubnetText(8) == "10.1.9.0/28"
  {
    OneDigit();
  }

  lemma HighSubnets()
    ensures SubnetText(9) == "10.1.10.0/28" && SubnetText(10) == "10.1.11.0/28" && SubnetText(11) == "10.1.12.0/28"
    ensures SubnetText(12) == "10.1.13.0/28" && SubnetText(13) == "10.1.14.0/28" && SubnetText(14) == "10.1.15.0/28"
    ensures SubnetText(15) == "10.1.16.0/28"
  {
    TwoDigits();
  }

  lemma OneDigit()
    ensures Itoa(1) == "1" && Itoa(2) == "2" && Itoa(3) == "3" && Itoa(4) == "4" && Itoa(5) == "5"
    ensures Itoa(6) == "6" && Itoa(7) == "7" && Itoa(8) == "8" && Itoa(9) == "9"
  {
  }

  lemma TwoDigits()
    ensures Itoa(10) == "10" && Itoa(11) == "11" && Itoa(12) == "12" && Itoa(13) == "13"
    ensures Itoa(14) == "14" && Itoa(15) == "15" && Itoa(16) == "16"
  {
    OneDigit();
    assert Itoa(10) == Itoa(1) + "0" && Itoa(11) == Itoa(1) + "1" && Itoa(12) == Itoa(1) + "2";
    assert Itoa(13) == Itoa(1) + "3" && Itoa(14) == Itoa(1) + "4" && Itoa(15) == Itoa(1) + "5";
    assert Itoa(16) == Itoa(1) + "6";
  }

  lemma SubnetTextGood(i: nat)
    requires i < SUBNETS
    ensures GoodToken(SubnetText(i))
  {
    DigitsFree(Itoa(i + 1), ';');
  }

  lemma SubnetIpsGood(i: nat)
    requires i < SUBNETS
    ensures GoodTokens(SubnetIps(i))
  {
    SubnetShape(i);
    var nums := UsableOf(SubnetOf(i));
    forall k | 0 <= k < |SubnetIps(i)| ensures GoodToken(SubnetIps(i)[k]) {
      DottedChars(nums[k], ';');
    }
  }

  lemma TokenNumber(i: nat, t: string) returns (n: nat)
    requires i < SUBNETS && t in SubnetIps(i)
    ensures BaseOf(i) + 1 < n <= BaseOf(i) + 15 && t == CidrText(n, 28)
  {
    SubnetShape(i);
    var nums := UsableOf(SubnetOf(i));
    var k :| 0 <= k < |SubnetIps(i)| && SubnetIps(i)[k] == t;
    n := nums[k];
    assert n in nums;
    AboveGateway(BaseOf(i), n);
    TwentyEight();
  }

  lemma AboveGateway(b: nat, n: nat)
    requires b % 256 == 0 && b <= n < b + 16 && Usable(n)
    ensures b + 1 < n
  {
    OffsetInBlock(b, n - b);
  }

  /** Every listed address parses back to a number inside its subnet, above the gateway. */
  lemma SubnetIpParses(i: nat, t: string)
    requires i < SUBNETS && t in SubnetIps(i)
    ensures AddressOf(t).Some? && BaseOf(i) + 1 < AddressOf(t).value <= BaseOf(i) + 15
  {
    var n := TokenNumber(i, t);
    ParsedAddress(n, 28);
  }

  lemma ParsedAddress(n: nat, bits: nat)
    requires n < WORD && bits <= 32
    ensures AddressOf(CidrText(n, bits)) == Some(n)
  {
    ParseCidrText(n, bits);
  }

  lemma GatewayParses(i: nat)
    requires i < SUBNETS
    ensures AddressOf(GatewayText(i)) == Some(BaseOf(i) + 1)
  {
    ParsedAddress(BaseOf(i) + 1, 28);
  }

  /** Different host subnets have different texts and no address in common. */
  lemma SubnetsDisjoint(i: nat, j: nat)
    requires i < SUBNETS && j < SUBNETS && i != j
    ensures SubnetText(i) != SubnetText(j)
    ensures forall t :: t in SubnetIps(i) ==> t !in SubnetIps(j)
  {
    SubnetParses(i);
    SubnetParses(j);
    forall t | t in SubnetIps(i) && t in SubnetIps(j) ensures false {
      SubnetIpParses(i, t);
      SubnetIpParses(j, t);
    }
  }
}
