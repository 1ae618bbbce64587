/** IP addresses as byte strings, and the IPv4 addresses that IPv6 addresses carry (ssrf/proxied.go). */
module Addresses {
  type Bytes = seq<bv8>

  const MAPPED_PREFIX: Bytes := [0, 0, 0, 0, 0, 0, 0, 0, 0, 0, 0xff, 0xff]

  /** The four bytes of an IPv4 address, mapped or not; nothing for any other address. */
  function To4(ip: Bytes): Bytes {
    if |ip| == 4 then ip
    else if |ip| == 16 && ip[..12] == MAPPED_PREFIX then ip[12..]
    else []
  }

  function To16(ip: Bytes): Bytes {
    if |ip| == 4 then MAPPED_PREFIX + ip else if |ip| == 16 then ip else []
  }

  function Normal(ip: Bytes): Bytes {
    if To4(ip) != [] then To4(ip) else ip
  }

  predicate Zero(b: Bytes) {
    forall i :: 0 <= i < |b| ==> b[i] == 0
  }

  predicate IsNat64(ip: Bytes)
    requires |ip| == 16
  {
    ip[0] == 0x00 && ip[1] == 0x64 && ip[2] == 0xff && ip[3] == 0x9b && Zero(ip[4..12])
  }

  function Xor(b: Bytes): (r: Bytes)
    ensures |r| == |b|
  {
    seq(|b|, i requires 0 <= i < |b| => b[i] ^ 0xff)
  }

  /** embeddedIPv4. */
  function EmbeddedIPv4(ip: Bytes): seq<Bytes> {
    if |ip| != 16 || To4(ip) != [] then []
    else if IsNat64(ip) then [ip[12..16]]
    else if ip[0] == 0x20 && ip[1] == 0x02 then [ip[2..6]]
    else if ip[0] == 0x20 && ip[1] == 0x01 && ip[2] == 0 && ip[3] == 0 then [ip[4..8], Xor(ip[12..16])]
    else if Zero(ip[..12]) then [ip[12..16]]
    else []
  }

  /** The standards' encodings, each with what else its layout holds. */
  datatype Carrier =
    | Nat64(v4: Bytes)
    | SixToFour(v4: Bytes, rest: Bytes)
    | Teredo(server: Bytes, flagsAndPort: Bytes, client: Bytes)
    | Compatible(v4: Bytes)
  {
    predicate Valid() {
      match this
      case Nat64(a) => |a| == 4
      case SixToFour(a, r) => |a| == 4 && |r| == 10
      case Teredo(s, f, c) => |s| == 4 && |f| == 4 && |c| == 4
      case Compatible(a) => |a| == 4
    }

    function Encode(): Bytes {
      match this
      case Nat64(a) => [0x00, 0x64, 0xff, 0x9b, 0, 0, 0, 0, 0, 0, 0, 0] + a
      case SixToFour(a, r) => [0x20, 0x02] + a + r
      case Teredo(s, f, c) => [0x20, 0x01, 0, 0] + s + f + Xor(c)
      case Compatible(a) => [0, 0, 0, 0, 0, 0, 0, 0, 0, 0, 0, 0] + a
    }

    function Carried(): seq<Bytes> {
      match this
      case Nat64(a) => [a]
      case SixToFour(a, _) => [a]
      case Teredo(s, _, c) => [s, c]
      case Compatible(a) => [a]
    }
  }

  lemma XorTwice(b: Bytes)
    ensures Xor(Xor(b)) == b
  {}

  /** Decoding an encoding gives back the addresses that were put in. */
  lemma EncodeThenEmbedded(c: Carrier)
    requires c.Valid()
    ensures EmbeddedIPv4(c.Encode()) == c.Carried()
  {
    var ip := c.Encode();
    match c
    case Nat64(a) => {
      assert ip[12..16] == a;
    }
    case SixToFour(a, r) => {
      assert ip[2..6] == a && ip[..12][0] == 0x20;
    }
    case Teredo(s, f, client) => {
      XorTwice(client);
      assert ip[4..8] == s && ip[12..16] == Xor(client) && ip[..12][0] == 0x20;
    }
    case Compatible(a) => {
      assert ip[12..16] == a;
    }
  }

  /** Which carrier an address is. */
  function CarrierOf(ip: Bytes): Carrier
    requires |ip| == 16
  {
    if IsNat64(ip) then Nat64(ip[12..16])
    else if ip[0] == 0x20 && ip[1] == 0x02 then SixToFour(ip[2..6], ip[6..16])
    else if ip[0] == 0x20 then Teredo(ip[4..8], ip[8..12], Xor(ip[12..16]))
    else Compatible(ip[12..16])
  }

  /** Only the four encodings carry anything. */
  lemma EmbeddedIsEncoded(ip: Bytes)
    requires EmbeddedIPv4(ip) != []
    ensures CarrierOf(ip).Valid() && CarrierOf(ip).Encode() == ip && EmbeddedIPv4(ip) == CarrierOf(ip).Carried()
  {
    XorTwice(ip[12..16]);
    assert ip == ip[..12] + ip[12..16];
    if !IsNat64(ip) && ip[0] == 0x20 {
      assert ip == [ip[0], ip[1]] + ip[2..6] + ip[6..16] == [ip[0], ip[1], ip[2], ip[3]] + ip[4..8] + ip[8..12] +
          ip[12..16];
    } else {
      assert ip == [ip[0], ip[1], ip[2], ip[3]] + ip[4..12] + ip[12..16];
    }
  }

  /** The encodings are disjoint, and each is injective. */
  lemma EncodingsDisjoint(c: Carrier, d: Carrier)
    requires c.Valid() && d.Valid() && c.Encode() == d.Encode()
    ensures c == d
  {
    EncodedIs(c);
    EncodedIs(d);
  }

  lemma EncodedIs(c: Carrier)
    requires c.Valid()
    ensures |c.Encode()| == 16 && CarrierOf(c.Encode()) == c
  {
    var ip := c.Encode();
    match c
    case Nat64(a) => assert ip[12..16] == a;
    case SixToFour(a, r) => assert ip[2..6] == a && ip[6..16] == r;
    case Teredo(s, f, client) => {
      XorTwice(client);
      assert ip[4..8] == s && ip[8..12] == f && ip[12..16] == Xor(client);
    }
    case Compatible(a) => {
      assert ip[12..16] == a;
    }
  }
}
