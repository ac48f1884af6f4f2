/**
 * Validation of the pod and service CIDR flags (`validateCIDR`).
 *
 * A CIDR is accepted when it parses as an IPv4 CIDR, the way Go's
 * `net.ParseCIDR` reads one, its prefix is at most /16, and the whole block
 * lies inside one of the three private blocks of section 3 of RFC 1918:
 * 10.0.0.0/8, 172.16.0.0/12 and 192.168.0.0/16.
 *
 * Because the prefix is at most 16, whether a block is private depends only
 * on the first two octets, read together as one 16-bit number (`High`).
 */
module Cidr {
  import opened Wrappers
  import opened Strings

  // ---------------------------------------------------------------------
  // Decimal numbers
  // ---------------------------------------------------------------------

  predicate IsDigit(c: char) { '0' <= c <= '9' }

  predicate AllDigits(s: string) { forall i :: 0 <= i < |s| ==> IsDigit(s[i]) }

  /** The value of a string of decimal digits. */
  function Value(s: string): nat
    requires AllDigits(s)
  {
    if |s| == 0 then 0 else Value(s[..|s| - 1]) * 10 + (s[|s| - 1] as int - '0' as int)
  }

  function DigitChar(d: nat): (c: char)
    requires d < 10
    ensures IsDigit(c)
  {
    ('0' as int + d) as char
  }

  /** The shortest decimal writing of `n`. */
  function Decimal(n: nat): (s: string)
    ensures 1 <= |s| && AllDigits(s)
  {
    if n < 10 then [DigitChar(n)] else Decimal(n / 10) + [DigitChar(n % 10)]
  }

  /** Reading back a written number gives the number; the writing has no
      leading zero, and numbers up to 255 take at most three digits. */
  lemma {:induction false} DecimalRoundTrip(n: nat)
    ensures Value(Decimal(n)) == n
    ensures |Decimal(n)| > 1 ==> Decimal(n)[0] != '0'
    ensures n <= 255 ==> |Decimal(n)| <= 3
    ensures n < 10 <==> |Decimal(n)| == 1
  {
    if n >= 10 {
      DecimalRoundTrip(n / 10);
      var s := Decimal(n);
      assert s[..|s| - 1] == Decimal(n / 10);
    }
  }

  // ---------------------------------------------------------------------
  // Parsing
  // ---------------------------------------------------------------------

  /** One dotted-decimal field: one to three digits, no leading zero, at
      most 255. */
  function ParseOctet(s: string): (r: Option<nat>)
    ensures r.Some? ==> r.value <= 255
  {
    if 1 <= |s| <= 3 && AllDigits(s) && (|s| == 1 || s[0] != '0') && Value(s) <= 255 then Some(Value(s))
    else None
  }

  /** A parsed IPv4 CIDR: the four octets of the address and the prefix
      length. */
  datatype Block = Block(a: nat, b: nat, c: nat, d: nat, prefix: nat)

  predicate WellFormed(blk: Block) {
    blk.a <= 255 && blk.b <= 255 && blk.c <= 255 && blk.d <= 255 && blk.prefix <= 32
  }

  /** The prefix length after the slash: digits only; leading zeros are
      allowed there. */
  function ParsePrefix(s: string): Option<nat> {
    if |s| > 0 && AllDigits(s) && Value(s) <= 32 then Some(Value(s)) else None
  }

  function ParseAddress(s: string): Option<seq<nat>> {
    var fields := Split(s, ".");
    if |fields| != 4 then None
    else
      var a := ParseOctet(fields[0]);
      var b := ParseOctet(fields[1]);
      var c := ParseOctet(fields[2]);
      var d := ParseOctet(fields[3]);
      if a.Some? && b.Some? && c.Some? && d.Some? then Some([a.value, b.value, c.value, d.value]) else None
  }

  /** `net.ParseCIDR` on an IPv4 CIDR: the address before the first slash,
      the prefix length after it. */
  function ParseCIDR(s: string): (r: Result<Block>)
    ensures r.Err? ==> r.msg == "invalid CIDR address: " + s
    ensures r.Ok? ==> WellFormed(r.value)
  {
    var err := Err("invalid CIDR address: " + s);
    match IndexOf(s, "/")
    case None => err
    case Some(i) =>
      var address := ParseAddress(s[..i]);
      var prefix := ParsePrefix(s[i + 1..]);
      if address.None? || prefix.None? then err
      else Ok(Block(address.value[0], address.value[1], address.value[2], address.value[3], prefix.value))
  }

  /** The canonical writing of a block, `a.b.c.d/p`. */
  function Format(blk: Block): string {
    Join([Decimal(blk.a), Decimal(blk.b), Decimal(blk.c), Decimal(blk.d)], ".") + "/" + Decimal(blk.prefix)
  }

  lemma OctetRoundTrip(n: nat)
    requires n <= 255
    ensures ParseOctet(Decimal(n)) == Some(n)
  {
    DecimalRoundTrip(n);
  }

  /** The dotted address of four written octets parses back to them. */
  lemma AddressRoundTrip(a: nat, b: nat, c: nat, d: nat)
    requires a <= 255 && b <= 255 && c <= 255 && d <= 255
    ensures ParseAddress(Join([Decimal(a), Decimal(b), Decimal(c), Decimal(d)], ".")) == Some([a, b, c, d])
  {
    var parts := [Decimal(a), Decimal(b), Decimal(c), Decimal(d)];
    forall k | 0 <= k < |parts| ensures !Contains(parts[k], ".") {
      AvoidsNotContains(parts[k], '.');
    }
    SplitJoin(parts, ".");
    OctetRoundTrip(a);
    OctetRoundTrip(b);
    OctetRoundTrip(c);
    OctetRoundTrip(d);
  }

  /** The canonical writing splits at its only slash into the dotted
      address and the written prefix. */
  lemma FormatPieces(blk: Block)
    ensures var address := Join([Decimal(blk.a), Decimal(blk.b), Decimal(blk.c), Decimal(blk.d)], ".");
      var s := Format(blk);
      && IndexOf(s, "/") == Some(|address|)
      && s[..|address|] == address
      && s[|address| + 1..] == Decimal(blk.prefix)
  {
    var parts := [Decimal(blk.a), Decimal(blk.b), Decimal(blk.c), Decimal(blk.d)];
    var address := Join(parts, ".");
    var prefix := Decimal(blk.prefix);
    JoinAvoids(parts, ".", '/');
    AvoidsNotContains(address, '/');
    IndexAfterPiece(address, "/", prefix);
  }

  lemma PrefixRoundTrip(p: nat)
    requires p <= 32
    ensures ParsePrefix(Decimal(p)) == Some(p)
  {
    DecimalRoundTrip(p);
  }

  /** Parsing the canonical writing of a well-formed block gives the block
      back. */
  lemma ParseFormat(blk: Block)
    requires WellFormed(blk)
    ensures ParseCIDR(Format(blk)) == Ok(blk)
  {
    FormatPieces(blk);
    AddressRoundTrip(blk.a, blk.b, blk.c, blk.d);
    PrefixRoundTrip(blk.prefix);
  }

  // ---------------------------------------------------------------------
  // Validation
  // ---------------------------------------------------------------------

  const TooSmall := "cidr needs to be at least a /16"
  const NotPrivate := "cidr is not within the private ranges"

  /** The first two octets as one number. */
  function High(blk: Block): nat { blk.a * 256 + blk.b }

  /** How many values of `High` a block of this prefix spans:
      two to the power `16 - prefix`. */
  function Span(prefix: nat): (k: nat)
    requires prefix <= 16
    ensures k >= 1
  {
    match prefix
    case 16 => 1     case 15 => 2     case 14 => 4     case 13 => 8
    case 12 => 16    case 11 => 32    case 10 => 64    case 9 => 128
    case 8 => 256    case 7 => 512    case 6 => 1024   case 5 => 2048
    case 4 => 4096   case 3 => 8192   case 2 => 16384  case 1 => 32768
    case _ => 65536
  }

  /** The first value of `High` in the block. */
  function First(blk: Block): nat
    requires blk.prefix <= 16
  {
    (High(blk) / Span(blk.prefix)) * Span(blk.prefix)
  }

  /** The block lies inside the block of `High` values `[start, start + size)`. */
  predicate Inside(blk: Block, start: nat, size: nat)
    requires blk.prefix <= 16
  {
    start <= First(blk) && First(blk) + Span(blk.prefix) <= start + size
  }

  /** Inside one of 10.0.0.0/8, 172.16.0.0/12 or 192.168.0.0/16. */
  predicate WithinPrivateBlock(blk: Block)
    requires blk.prefix <= 16
  {
    Inside(blk, 10 * 256, 256) || Inside(blk, 172 * 256 + 16, 16) || Inside(blk, 192 * 256 + 168, 1)
  }

  /** The private-range test by octets: a long enough prefix on an address
      of one of the three blocks. */
  predicate PrivateByOctets(blk: Block) {
    || (blk.prefix >= 8 && blk.a == 10)
    || (blk.prefix >= 12 && blk.a == 172 && 16 <= blk.b < 32)
    || (blk.prefix >= 16 && blk.a == 192 && blk.b == 168)
  }

  /** `validateCIDR`: nil when the CIDR is acceptable, otherwise the
      error. */
  function ValidateCIDR(s: string): (err: Option<string>)
    ensures ParseCIDR(s).Err? ==> err == Some(ParseCIDR(s).msg)
    ensures ParseCIDR(s).Ok? && ParseCIDR(s).value.prefix > 16 ==> err == Some(TooSmall)
  {
    match ParseCIDR(s)
    case Err(e) => Some(e)
    case Ok(blk) =>
      if blk.prefix > 16 then Some(TooSmall)
      else if !PrivateByOctets(blk) then Some(NotPrivate)
      else None
  }

  lemma InsideTen(blk: Block)
    requires WellFormed(blk) && blk.prefix <= 16
    ensures Inside(blk, 10 * 256, 256) <==> blk.prefix >= 8 && blk.a == 10
  {
  }

  lemma InsideOneSevenTwo(blk: Block)
    requires WellFormed(blk) && blk.prefix <= 16
    ensures Inside(blk, 172 * 256 + 16, 16) <==> blk.prefix >= 12 && blk.a == 172 && 16 <= blk.b < 32
  {
  }

  lemma InsideOneNineTwo(blk: Block)
    requires WellFormed(blk) && blk.prefix <= 16
    ensures Inside(blk, 192 * 256 + 168, 1) <==> blk.prefix == 16 && blk.a == 192 && blk.b == 168
  {
  }

  /** The octet test is exactly block containment: a block of prefix at
      most 16 passes it precisely when all of it lies inside one of the
      three private blocks. */
  lemma PrivateByOctetsIsContainment(blk: Block)
    requires WellFormed(blk) && blk.prefix <= 16
    ensures PrivateByOctets(blk) <==> WithinPrivateBlock(blk)
  {
    InsideTen(blk);
    InsideOneSevenTwo(blk);
    InsideOneNineTwo(blk);
  }

  /** A CIDR is accepted exactly when it parses, its prefix is at most /16
      and the whole block lies inside one private block. */
  lemma ValidateCIDRSpec(s: string)
    ensures ValidateCIDR(s).None? <==>
      ParseCIDR(s).Ok? && ParseCIDR(s).value.prefix <= 16 && WithinPrivateBlock(ParseCIDR(s).value)
    ensures ValidateCIDR(s) == Some(NotPrivate) <==>
      ParseCIDR(s).Ok? && ParseCIDR(s).value.prefix <= 16 && !WithinPrivateBlock(ParseCIDR(s).value)
  {
    if ParseCIDR(s).Ok? && ParseCIDR(s).value.prefix <= 16 {
      PrivateByOctetsIsContainment(ParseCIDR(s).value);
    }
    assert ("invalid CIDR address: " + s)[0] != NotPrivate[0];
  }

  /** How the validation judges the canonical writing of a block. */
  lemma FormatValidation(blk: Block, s: string)
    requires WellFormed(blk) && Format(blk) == s
    ensures ValidateCIDR(s) ==
      if blk.prefix > 16 then Some(TooSmall) else if PrivateByOctets(blk) then None else Some(NotPrivate)
  {
    ParseFormat(blk);
  }

  // The writings of the blocks of the validation's table test.

  lemma TenAddress()
    ensures Join([Decimal(10), Decimal(0), Decimal(0), Decimal(0)], ".") == "10.0.0.0"
  {
    assert Decimal(10) == "10" && Decimal(0) == "0";
    assert Join(["10", "0", "0", "0"], ".") == "10.0.0.0";
  }

  lemma TenSixteenWriting()
    ensures Format(Block(10, 0, 0, 0, 16)) == "10.0.0.0/16"
  {
    TenAddress();
    assert Decimal(16) == "16";
  }

  lemma TenTwentyFourWriting()
    ensures Format(Block(10, 0, 0, 0, 24)) == "10.0.0.0/24"
  {
    TenAddress();
    assert Decimal(24) == "24";
  }

  lemma TenThirtyTwoWriting()
    ensures Format(Block(10, 0, 0, 0, 32)) == "10.0.0.0/32"
  {
    TenAddress();
    assert Decimal(32) == "32";
  }

  lemma HundredWriting()
    ensures Format(Block(100, 0, 0, 0, 16)) == "100.0.0.0/16"
  {
    assert Decimal(100) == "100" by { assert Decimal(10) == "10"; }
    assert Join(["100", "0", "0", "0"], ".") == "100.0.0.0";
  }

  lemma OneNineTwoAddress()
    ensures Join([Decimal(192), Decimal(168), Decimal(0), Decimal(0)], ".") == "192.168.0.0"
  {
    assert Decimal(192) == "192" by { assert Decimal(19) == "19"; }
    assert Decimal(168) == "168" by { assert Decimal(16) == "16"; }
    assert Decimal(0) == "0";
    assert Join(["192", "168", "0", "0"], ".") == "192.168.0.0";
  }

  lemma OneNineTwoWriting()
    ensures Format(Block(192, 168, 0, 0, 16)) == "192.168.0.0/16"
  {
    OneNineTwoAddress();
    assert Decimal(16) == "16";
  }

  lemma OneSevenTwoAddress()
    ensures Join([Decimal(172), Decimal(16), Decimal(0), Decimal(0)], ".") == "172.16.0.0"
  {
    assert Decimal(172) == "172" by { assert Decimal(17) == "17"; }
    assert Decimal(16) == "16" && Decimal(0) == "0";
    assert Join(["172", "16", "0", "0"], ".") == "172.16.0.0";
  }

  lemma OneSevenTwoWriting()
    ensures Format(Block(172, 16, 0, 0, 12)) == "172.16.0.0/12"
  {
    OneSevenTwoAddress();
    assert Decimal(12) == "12";
  }

  /** The accepted and rejected examples of the validation's table test. */
  lemma ValidExample()
    ensures ValidateCIDR("10.0.0.0/16") == None
  {
    TenSixteenWriting();
    FormatValidation(Block(10, 0, 0, 0, 16), "10.0.0.0/16");
  }

  lemma SmallExample()
    ensures ValidateCIDR("10.0.0.0/24") == Some(TooSmall)
  {
    TenTwentyFourWriting();
    FormatValidation(Block(10, 0, 0, 0, 24), "10.0.0.0/24");
  }

  lemma HostExample()
    ensures ValidateCIDR("10.0.0.0/32") == Some(TooSmall)
  {
    TenThirtyTwoWriting();
    FormatValidation(Block(10, 0, 0, 0, 32), "10.0.0.0/32");
  }

  lemma PublicExample()
    ensures ValidateCIDR("100.0.0.0/16") == Some(NotPrivate)
  {
    HundredWriting();
    FormatValidation(Block(100, 0, 0, 0, 16), "100.0.0.0/16");
  }

  lemma WholeBlockExample()
    ensures ValidateCIDR("192.168.0.0/16") == None
  {
    OneNineTwoWriting();
    FormatValidation(Block(192, 168, 0, 0, 16), "192.168.0.0/16");
  }

  lemma WholeTwelveExample()
    ensures ValidateCIDR("172.16.0.0/12") == None
  {
    OneSevenTwoWriting();
    FormatValidation(Block(172, 16, 0, 0, 12), "172.16.0.0/12");
  }

  /** A dotted address whose first field is not an octet does not parse. */
  lemma BadFirstOctet(parts: seq<string>)
    requires |parts| == 4 && ParseOctet(parts[0]).None?
    requires forall k :: 0 <= k < 4 ==> Avoids(parts[k], '.')
    ensures ParseAddress(Join(parts, ".")).None?
  {
    forall k | 0 <= k < 4 ensures !Contains(parts[k], ".") {
      AvoidsNotContains(parts[k], '.');
    }
    SplitJoin(parts, ".");
  }

  /** A CIDR whose address part does not parse is rejected as a whole. */
  lemma BadAddress(address: string, prefix: string)
    requires Avoids(address, '/') && ParseAddress(address).None?
    ensures ParseCIDR(address + "/" + prefix) == Err("invalid CIDR address: " + address + "/" + prefix)
  {
    AvoidsNotContains(address, '/');
    IndexAfterPiece(address, "/", prefix);
    var s := address + "/" + prefix;
    assert s[..|address|] == address;
    AddressRejected(s, |address|);
  }

  /** A CIDR whose part before the first '/' is not an address fails. */
  lemma AddressRejected(s: string, i: nat)
    requires IndexOf(s, "/") == Some(i) && i < |s|
    requires ParseAddress(s[..i]).None?
    ensures ParseCIDR(s) == Err("invalid CIDR address: " + s)
  {
  }

  /** "500" is not an octet. */
  lemma FiveHundredNotOctet()
    ensures ParseOctet("500").None?
  {
    assert Value("500") == 500 by {
      assert "500"[..2] == "50" && "50"[..1] == "5" && "5"[..0] == "";
    }
  }

  /** The address "500.0.0.0" does not parse and has no slash. */
  lemma FiveHundredAddress()
    ensures ParseAddress("500.0.0.0").None? && Avoids("500.0.0.0", '/')
  {
    var parts := ["500", "0", "0", "0"];
    FiveHundredNotOctet();
    BadFirstOctet(parts);
    var address := Join(parts, ".");
    assert address == "500.0.0.0";
    JoinAvoids(parts, ".", '/');
  }

  /** An octet above 255 makes the CIDR unparsable. */
  lemma OutOfRangeExample()
    ensures ValidateCIDR("500.0.0.0/16") == Some("invalid CIDR address: " + "500.0.0.0/16")
  {
    FiveHundredAddress();
    BadAddress("500.0.0.0", "16");
    assert "500.0.0.0" + "/" + "16" == "500.0.0.0/16";
  }
}
