/** Addresses, networks and prefix masks (crates/api/src/config.rs). */
module NetworkMask {

  type Octets = seq<bv8>

  // --- masks ---------------------------------------------------------------

  predicate Masked(network: Octets, other: Octets, prefix: nat)
    requires |network| == |other| && prefix <= 8 * |network|
  {
    var full, bits := prefix / 8, prefix % 8;
    network[..full] == other[..full] &&
    (bits == 0 || network[full] & MaskOf(bits) == other[full] & MaskOf(bits))
  }

  /** The leading `bits` bits of an octet. */
  function MaskOf(bits: nat): (mask: bv8)
    requires 1 <= bits <= 7
    ensures mask == if bits == 1 then 0x80 else if bits == 2 then 0xC0 else if bits == 3 then 0xE0 else if bits == 4 then 0xF0
                    else if bits == 5 then 0xF8 else if bits == 6 then 0xFC else 0xFE
  {
    0xFF << (8 - bits)
  }

  function Power2(n: nat): (p: nat)
    ensures p >= 1
  {
    if n == 0 then 1 else 2 * Power2(n - 1)
  }

  function Values(octets: Octets): (values: seq<nat>)
    ensures |values| == |octets| && forall i | 0 <= i < |octets| :: values[i] == octets[i] as nat && values[i] < 256
  {
    seq(|octets|, i requires 0 <= i < |octets| => octets[i] as nat)
  }

  predicate AreOctets(values: seq<nat>) {
    forall i | 0 <= i < |values| :: values[i] < 256
  }

  /** Octets as one number, the first the most significant. */
  function Number(values: seq<nat>): nat {
    if values == [] then 0 else 256 * Number(values[..|values| - 1]) + values[|values| - 1]
  }

  /** Four octets as a number of 32 bits, and one more octet after any others. */
  lemma NumberIs(a: nat, b: nat, c: nat, d: nat)
    ensures Number([a, b, c, d]) == 16_777_216 * a + 65_536 * b + 256 * c + d
    ensures Number([a]) == a
  {
    assert [a][..0] == [] && Number([a]) == a;
    assert [a, b][..1] == [a] && Number([a, b]) == 256 * a + b;
    assert [a, b, c][..2] == [a, b] && Number([a, b, c]) == 65_536 * a + 256 * b + c;
    assert [a, b, c, d][..3] == [a, b, c];
  }

  lemma ShiftedPairs(a: bv8, b: bv8)
    ensures a & 0x80 == b & 0x80 <==> a >> 7 == b >> 7
    ensures a & 0xC0 == b & 0xC0 <==> a >> 6 == b >> 6
    ensures a & 0xE0 == b & 0xE0 <==> a >> 5 == b >> 5
    ensures a & 0xF0 == b & 0xF0 <==> a >> 4 == b >> 4
    ensures a & 0xF8 == b & 0xF8 <==> a >> 3 == b >> 3
    ensures a & 0xFC == b & 0xFC <==> a >> 2 == b >> 2
    ensures a & 0xFE == b & 0xFE <==> a >> 1 == b >> 1
  {
  }

  lemma ShiftDivides(a: bv8)
    ensures (a >> 1) as nat == a as nat / 2
    ensures (a >> 2) as nat == a as nat / 4
    ensures (a >> 3) as nat == a as nat / 8
    ensures (a >> 4) as nat == a as nat / 16
    ensures (a >> 5) as nat == a as nat / 32
    ensures (a >> 6) as nat == a as nat / 64
    ensures (a >> 7) as nat == a as nat / 128
  {
  }

  lemma Powers()
    ensures Power2(0) == 1 && Power2(1) == 2 && Power2(2) == 4 && Power2(3) == 8 && Power2(4) == 16
    ensures Power2(5) == 32 && Power2(6) == 64 && Power2(7) == 128 && Power2(8) == 256
  {
  }

  lemma HighMasksDivide(a: bv8, b: bv8)
    ensures a & 0x80 == b & 0x80 <==> a as nat / 128 == b as nat / 128
    ensures a & 0xC0 == b & 0xC0 <==> a as nat / 64 == b as nat / 64
    ensures a & 0xE0 == b & 0xE0 <==> a as nat / 32 == b as nat / 32
  {
    ShiftedPairs(a, b);
    ShiftDivides(a);
    ShiftDivides(b);
    SameOctet(a >> 5, b >> 5);
    SameOctet(a >> 6, b >> 6);
    SameOctet(a >> 7, b >> 7);
  }

  lemma MiddleMasksDivide(a: bv8, b: bv8)
    ensures a & 0xF0 == b & 0xF0 <==> a as nat / 16 == b as nat / 16
    ensures a & 0xF8 == b & 0xF8 <==> a as nat / 8 == b as nat / 8
  {
    ShiftedPairs(a, b);
    ShiftDivides(a);
    ShiftDivides(b);
    SameOctet(a >> 3, b >> 3);
    SameOctet(a >> 4, b >> 4);
  }

  lemma LowMasksDivide(a: bv8, b: bv8)
    ensures a & 0xFC == b & 0xFC <==> a as nat / 4 == b as nat / 4
    ensures a & 0xFE == b & 0xFE <==> a as nat / 2 == b as nat / 2
  {
    ShiftedPairs(a, b);
    ShiftDivides(a);
    ShiftDivides(b);
    SameOctet(a >> 1, b >> 1);
    SameOctet(a >> 2, b >> 2);
  }

  /** Masking keeps what dividing by the rest keeps. */
  lemma TopBits(a: bv8, b: bv8, bits: nat)
    requires 1 <= bits <= 7
    ensures a & MaskOf(bits) == b & MaskOf(bits) <==> a as nat / Power2(8 - bits) == b as nat / Power2(8 - bits)
  {
    Powers();
    HighMasksDivide(a, b);
    MiddleMasksDivide(a, b);
    LowMasksDivide(a, b);
  }

  lemma SameOctet(a: bv8, b: bv8)
    ensures a as nat == b as nat <==> a == b
  {
  }

  /** The mask on numbers instead of bits. */
  predicate MaskedValues(network: seq<nat>, other: seq<nat>, prefix: nat)
    requires |network| == |other| && prefix <= 8 * |network|
  {
    var full, bits := prefix / 8, prefix % 8;
    network[..full] == other[..full] &&
    (bits == 0 || network[full] / Power2(8 - bits) == other[full] / Power2(8 - bits))
  }

  lemma SameStart(a: Octets, b: Octets, n: nat)
    requires n <= |a| == |b|
    ensures a[..n] == b[..n] <==> Values(a)[..n] == Values(b)[..n]
  {
  }

  lemma SameTop(a: Octets, b: Octets, at: nat, bits: nat)
    requires at < |a| == |b| && 1 <= bits <= 7
    ensures a[at] & MaskOf(bits) == b[at] & MaskOf(bits)
       <==> Values(a)[at] / Power2(8 - bits) == Values(b)[at] / Power2(8 - bits)
  {
    TopBits(a[at], b[at], bits);
  }

  lemma MaskedIsOnValues(network: Octets, other: Octets, prefix: nat)
    requires |network| == |other| && prefix <= 8 * |network|
    ensures Masked(network, other, prefix) <==> MaskedValues(Values(network), Values(other), prefix)
  {
    SameStart(network, other, prefix / 8);
    if prefix % 8 != 0 {
      SameTop(network, other, prefix / 8, prefix % 8);
    }
  }

  // --- arithmetic ----------------------------------------------------------

  lemma LessTimes(a: nat, b: nat, d: nat)
    ensures a * d < (b + 1) * d ==> a <= b
  {
  }

  lemma QuotientIs(x: nat, d: nat, q: nat, r: nat)
    requires d > 0 && r < d && x == q * d + r
    ensures x / d == q
  {
    assert x == x / d * d + x % d;
    LessTimes(q, x / d, d);
    LessTimes(x / d, q, d);
  }

  /** The octets below the mask do not matter. */
  lemma DropOctet(n: nat, l: nat, d: nat)
    requires l < 256 && d >= 1
    ensures (256 * n + l) / (256 * d) == n / d
  {
    var q, r := n / d, n % d;
    assert n == q * d + r;
    assert 256 * n + l == q * (256 * d) + (256 * r + l);
    QuotientIs(256 * n + l, 256 * d, q, 256 * r + l);
  }

  lemma SplitLastOctet(n: nat, l: nat, c: nat, d: nat)
    requires l < 256 && d > 0 && c * d == 256
    ensures (256 * n + l) / d == n * c + l / d && l / d < c
  {
    assert l == l / d * d + l % d;
    assert 256 * n + l == (n * c + l / d) * d + l % d;
    QuotientIs(256 * n + l, d, n * c + l / d, l % d);
    assert c > 0;
    LessTimes(l / d, c - 1, d);
  }

  lemma SameQuotients(n: nat, x: nat, k: nat, y: nat, c: nat)
    requires x < c && y < c
    ensures n * c + x == k * c + y <==> n == k && x == y
  {
    if n * c + x == k * c + y {
      LessTimes(n, k, c);
      LessTimes(k, n, c);
    }
  }

  lemma PowersMultiply(bits: nat)
    requires bits <= 7
    ensures Power2(8 - bits) * Power2(bits) == 256
  {
    Powers();
  }

  lemma SplitOctets(n: nat, l: nat, k: nat, m: nat, c: nat, d: nat)
    requires l < 256 && m < 256 && d > 0 && c * d == 256
    ensures (256 * n + l) / d == (256 * k + m) / d <==> n == k && l / d == m / d
  {
    SplitLastOctet(n, l, c, d);
    SplitLastOctet(k, m, c, d);
    SameQuotients(n, l / d, k, m / d, c);
  }

  /** Within the last octet the mask decides. */
  lemma LastOctet(n: nat, l: nat, k: nat, m: nat, bits: nat)
    requires l < 256 && m < 256 && bits <= 7
    ensures (256 * n + l) / Power2(bits) == (256 * k + m) / Power2(bits)
       <==> n == k && l / Power2(bits) == m / Power2(bits)
  {
    PowersMultiply(bits);
    SplitOctets(n, l, k, m, Power2(8 - bits), Power2(bits));
  }

  lemma PowerSum(a: nat)
    ensures Power2(a + 8) == 256 * Power2(a)
  {
    assert Power2(a + 2) == 4 * Power2(a);
    assert Power2(a + 4) == 4 * Power2(a + 2);
    assert Power2(a + 6) == 4 * Power2(a + 4);
    assert Power2(a + 8) == 4 * Power2(a + 6);
  }

  lemma {:induction false} NumberIsInjective(a: seq<nat>, b: seq<nat>)
    requires |a| == |b| && AreOctets(a) && AreOctets(b)
    ensures Number(a) == Number(b) <==> a == b
  {
    if a != [] {
      var n := |a| - 1;
      NumberIsInjective(a[..n], b[..n]);
      assert a == a[..n] + [a[n]] && b == b[..n] + [b[n]];
    }
  }

  lemma DropLast(values: seq<nat>, k: nat)
    requires values != [] && AreOctets(values)
    ensures Number(values) / Power2(k + 8) == Number(values[..|values| - 1]) / Power2(k)
  {
    PowerSum(k);
    DropOctet(Number(values[..|values| - 1]), values[|values| - 1], Power2(k));
  }

  lemma {:induction false} ValuesDivide(network: seq<nat>, other: seq<nat>, prefix: nat)
    requires |network| == |other| && prefix <= 8 * |network| && AreOctets(network) && AreOctets(other)
    ensures var hosts := Power2(8 * |network| - prefix);
            MaskedValues(network, other, prefix) <==> Number(network) / hosts == Number(other) / hosts
  {
    if network != [] && prefix <= 8 * (|network| - 1) {
      var n := |network| - 1;
      ValuesDivide(network[..n], other[..n], prefix);
      MaskedPrefix(network, other, prefix);
      DropLast(network, 8 * n - prefix);
      DropLast(other, 8 * n - prefix);
    } else if prefix == 8 * |network| {
      WholeDivides(network, other);
    } else {
      InLastOctet(network, other, prefix);
    }
  }

  lemma WholeDivides(network: seq<nat>, other: seq<nat>)
    requires |network| == |other| && AreOctets(network) && AreOctets(other)
    ensures MaskedValues(network, other, 8 * |network|) <==> Number(network) / Power2(0) == Number(other) / Power2(0)
  {
    NumberIsInjective(network, other);
    assert network[..|network|] == network && other[..|other|] == other;
  }

  lemma InLastOctet(network: seq<nat>, other: seq<nat>, prefix: nat)
    requires |network| == |other| > 0 && AreOctets(network) && AreOctets(other)
    requires 8 * (|network| - 1) < prefix < 8 * |network|
    ensures var hosts := Power2(8 * |network| - prefix);
            MaskedValues(network, other, prefix) <==> Number(network) / hosts == Number(other) / hosts
  {
    var n := |network| - 1;
    NumberIsInjective(network[..n], other[..n]);
    LastOctet(Number(network[..n]), network[n], Number(other[..n]), other[n], 8 * |network| - prefix);
    assert prefix / 8 == n && 8 - prefix % 8 == 8 * |network| - prefix;
  }

  lemma MaskedPrefix(network: seq<nat>, other: seq<nat>, prefix: nat)
    requires |network| == |other| > 0 && prefix <= 8 * (|network| - 1)
    ensures MaskedValues(network, other, prefix) == MaskedValues(network[..|network| - 1], other[..|other| - 1], prefix)
  {
    var n, full := |network| - 1, prefix / 8;
    assert network[..n][..full] == network[..full] && other[..n][..full] == other[..full];
  }

  /** Two addresses are in one network exactly when, as numbers, they agree once the host bits are divided away. */
  lemma MaskedIsDivision(network: Octets, other: Octets, prefix: nat)
    requires |network| == |other| && prefix <= 8 * |network|
    ensures var hosts := Power2(8 * |network| - prefix);
            Masked(network, other, prefix) <==> Number(Values(network)) / hosts == Number(Values(other)) / hosts
  {
    MaskedIsOnValues(network, other, prefix);
    ValuesDivide(Values(network), Values(other), prefix);
  }

  // --- networks ------------------------------------------------------------

  datatype IpAddr = V4(octets: Octets) | V6(octets: Octets)

  type Address = a: IpAddr | |a.octets| == (if a.V4? then 4 else 16) witness V4([0, 0, 0, 0])

  datatype Cidr = Cidr(network: Address, prefix: nat)

  type Network = c: Cidr | c.prefix <= (if c.network.V4? then 32 else 128) witness Cidr(V4([0, 0, 0, 0]), 0)

  /** An IPv4 network never contains an IPv6 address, mapped or not. */
  predicate InNetwork(c: Network, a: Address) {
    match (c.network, a)
    case (V4(network), V4(other)) => Masked(network, other, c.prefix)
    case (V6(network), V6(other)) => Masked(network, other, c.prefix)
    case _ => false
  }

  /** The family agrees, and so do the leading `prefix` bits. */
  predicate LeadingBitsAgree(c: Network, a: Address) {
    var hosts := Power2((if c.network.V4? then 32 else 128) - c.prefix);
    c.network.V4? == a.V4? && Number(Values(c.network.octets)) / hosts == Number(Values(a.octets)) / hosts
  }

  lemma InNetworkIs(c: Network, a: Address)
    ensures InNetwork(c, a) <==> LeadingBitsAgree(c, a)
  {
    if c.network.V4? == a.V4? {
      MaskedIsDivision(c.network.octets, a.octets, c.prefix);
    }
  }

  predicate IsTrusted(a: Address, trusted: seq<Network>) {
    exists i | 0 <= i < |trusted| :: InNetwork(trusted[i], a)
  }

  /** Trusting an address is arithmetic on the leading bits of some network of its family. */
  lemma TrustedIs(a: Address, trusted: seq<Network>)
    ensures IsTrusted(a, trusted) <==> exists i | 0 <= i < |trusted| :: LeadingBitsAgree(trusted[i], a)
  {
    forall i | 0 <= i < |trusted| ensures InNetwork(trusted[i], a) <==> LeadingBitsAgree(trusted[i], a) {
      InNetworkIs(trusted[i], a);
    }
  }
}
