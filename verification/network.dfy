/**
 * IP networks as `ipaddress.ip_network(text, strict=False)` produces them, and
 * the sort key `(version, int(network_address), prefixlen)` built from one.
 * Prefixes follow the CIDR notation of section 3.1 of RFC 4632 (IPv4) and the
 * prefix text form of section 2.3 of RFC 4291 (IPv6).
 */
module Network {
  import opened Wrappers

  /** The two address families, IPv4 and IPv6. */
  datatype Family = V4 | V6 {

    /** The family's version number, the first component of the sort key. */
    function Version(): nat {
      if V4? then 4 else 6
    }

    /** Number of bits in an address of the family. */
    function Width(): nat {
      if V4? then 32 else 128
    }
  }

  /** Two to the power `n`, computed by halving the exponent. */
  function Pow2(n: nat): (r: nat)
    ensures r >= 1
  {
    if n == 0 then 1
    else if n % 2 == 1 then 2 * Pow2(n - 1)
    else
      var h := Pow2(n / 2);
      MulAtLeast(h, h);
      h * h
  }

  /** Pow2 is two to the power `n`: one more bit doubles it. */
  lemma {:induction false} Pow2Step(n: nat)
    ensures Pow2(n + 1) == 2 * Pow2(n)
    decreases n
  {
    if n % 2 == 1 {
      var m := (n - 1) / 2;
      if m == 0 {
        assert Pow2(1) == 2 * Pow2(0);
        assert Pow2(2) == Pow2(1) * Pow2(1);
      } else {
        Pow2Step(m);
        var g := Pow2(m);
        assert Pow2(n + 1) == Pow2(m + 1) * Pow2(m + 1);
        assert Pow2(n - 1) == g * g;
        assert Pow2(n) == 2 * (g * g);
        assert Pow2(m + 1) == 2 * g;
        assert (2 * g) * (2 * g) == 2 * (2 * (g * g));
      }
    }
  }

  /** The sizes of the two address spaces. */
  lemma AddressSpaceSizes()
    ensures Pow2(32) == 0x1_0000_0000
    ensures Pow2(128) == 0x1_0000_0000_0000_0000_0000_0000_0000_0000
  {
    assert Pow2(2) == 4;
    assert Pow2(4) == 16;
    assert Pow2(8) == 0x100;
    assert Pow2(16) == 0x1_0000;
    assert Pow2(32) == 0x1_0000_0000;
    assert Pow2(64) == 0x1_0000_0000_0000_0000;
  }

  /**
   * What the textual parser reads from a CIDR string: the family, the address
   * as written (host bits possibly set) and the prefix length as written.
   */
  datatype Literal = Literal(family: Family, address: nat, length: nat)

  /** A parsed network: the address has its host bits cleared. */
  datatype Net = Net(family: Family, address: nat, length: nat)

  /** Size of the block a prefix of `length` bits covers in `family`. */
  function BlockSize(family: Family, length: nat): (r: nat)
    requires length <= family.Width()
    ensures r >= 1
  {
    Pow2(family.Width() - length)
  }

  /** A network the parser can produce: a prefix length within the address width and an aligned address. */
  predicate ValidNet(n: Net) {
    && n.length <= n.family.Width()
    && n.address < Pow2(n.family.Width())
    && n.address % BlockSize(n.family, n.length) == 0
  }

  /** A multiple of a positive number that is at least it. */
  lemma MulAtLeast(d: int, b: nat)
    requires d >= 1
    ensures d * b >= b
  {
  }

  /** Euclidean division is unique: quotient and remainder are determined by `a == q * b + r`. */
  lemma DivModUnique(a: nat, b: nat, q: int, r: int)
    requires b >= 1 && 0 <= r < b && a == q * b + r
    ensures a / b == q && a % b == r
  {
    var q0, r0 := a / b, a % b;
    assert a == q0 * b + r0;
    if q > q0 {
      MulAtLeast(q - q0, b);
    } else if q0 > q {
      MulAtLeast(q0 - q, b);
    }
  }

  /** Clears the low bits of `address` below the block size `block`. */
  function Mask(address: nat, block: nat): (r: nat)
    requires block >= 1
    ensures r % block == 0
    ensures r <= address
    ensures address - r < block
  {
    var q := address / block;
    assert address == q * block + address % block;
    DivModUnique(q * block, block, q, 0);
    address - address % block
  }

  /** The masked address is the start of the block holding `address`. */
  lemma MaskIsQuotient(address: nat, block: nat)
    requires block >= 1
    ensures Mask(address, block) == (address / block) * block
  {
    assert address == (address / block) * block + address % block;
  }

  /** A block-aligned address no larger than `address` within one block of it is the masked address. */
  lemma MaskUnique(address: nat, block: nat, n: nat)
    requires block >= 1
    requires n % block == 0 && n <= address && address - n < block
    ensures n == Mask(address, block)
  {
    var q := n / block;
    assert n == q * block + n % block;
    DivModUnique(address, block, q, address - n);
  }

  /**
   * `ip_network(text, strict=False)` once the text has been read: a prefix
   * length beyond the width or an address beyond the family's range is a
   * ValueError (None); otherwise the host bits are masked off, not rejected.
   */
  function ToNetwork(lit: Literal): (r: Option<Net>)
    ensures r.Some? <==> lit.length <= lit.family.Width() && lit.address < Pow2(lit.family.Width())
    ensures r.Some? ==> ValidNet(r.value)
    ensures r.Some? ==> r.value.family == lit.family && r.value.length == lit.length
    ensures r.Some? ==> r.value.address <= lit.address
    ensures r.Some? ==> lit.address - r.value.address < BlockSize(lit.family, lit.length)
  {
    if lit.length <= lit.family.Width() && lit.address < Pow2(lit.family.Width()) then
      Some(Net(lit.family, Mask(lit.address, BlockSize(lit.family, lit.length)), lit.length))
    else
      None
  }

  /** Parsing a network that is already written without host bits returns it unchanged. */
  lemma ToNetworkOfValid(n: Net)
    requires ValidNet(n)
    ensures ToNetwork(Literal(n.family, n.address, n.length)) == Some(n)
  {
    MaskUnique(n.address, BlockSize(n.family, n.length), n.address);
  }

  /** Two spellings that differ only in host bits give the same network. */
  lemma ToNetworkIgnoresHostBits(a: Literal, b: Literal)
    requires a.family == b.family && a.length == b.length
    requires ToNetwork(a).Some? && ToNetwork(b).Some?
    requires a.address / BlockSize(a.family, a.length) == b.address / BlockSize(b.family, b.length)
    ensures ToNetwork(a) == ToNetwork(b)
  {
    var block := BlockSize(a.family, a.length);
    MaskIsQuotient(a.address, block);
    MaskIsQuotient(b.address, block);
  }

  /** The sort key of line 26: version, network address as an integer, prefix length. */
  datatype SortKey = SortKey(version: nat, address: nat, length: nat)

  /** The key `sort_key` gives a parsed network: its version, its address and its length. */
  function KeyOf(n: Net): (k: SortKey)
    requires ValidNet(n)
    ensures k.version == n.family.Version() && k.address == n.address && k.length == n.length
    ensures n.family.V4? <==> k.version == 4
    ensures k.version == 4 || k.version == 6
    ensures k.address < Pow2(if k.version == 4 then 32 else 128)
    ensures k.length <= (if k.version == 4 then 32 else 128)
  {
    SortKey(n.family.Version(), n.address, n.length)
  }

  /** Python's lexicographic comparison `a <= b` of two key tuples. */
  predicate KeyLe(a: SortKey, b: SortKey) {
    || a.version < b.version
    || (a.version == b.version && a.address < b.address)
    || (a.version == b.version && a.address == b.address && a.length <= b.length)
  }

  /** Tuple comparison is a total order on keys. */
  lemma KeyLeTotalOrder(a: SortKey, b: SortKey, c: SortKey)
    ensures KeyLe(a, a)
    ensures KeyLe(a, b) || KeyLe(b, a)
    ensures KeyLe(a, b) && KeyLe(b, a) ==> a == b
    ensures KeyLe(a, b) && KeyLe(b, c) ==> KeyLe(a, c)
  {
  }
}
