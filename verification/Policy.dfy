/** Which peers may, must or may not send a header (src/policy.rs). */
module Policy {
  import opened Octets
  import opened Types
  import opened Listener
  import EndToEnd
  import Parser
  import Proxied

  // Networks

  function OctetsOf(ip: IpAddr): (o: bytes)
    ensures |o| == if ip.V4? then 4 else 16
  {
    match ip
    case V4(o) => o
    case V6(o) => o
  }

  /** The number of bits in an address: `max_prefix_len`. */
  function Width(ip: IpAddr): nat
  {
    8 * |OctetsOf(ip)|
  }

  datatype Network = Network(addr: IpAddr, prefixLen: nat)

  /** `IpNet`, whose constructors refuse a longer prefix. */
  type IpNet = n: Network | n.prefixLen <= Width(n.addr) witness Network(V4([0, 0, 0, 0]), 0)

  function Pow2(k: nat): (p: nat)
    ensures p >= 1
  {
    if k == 0 then 1 else 2 * Pow2(k - 1)
  }

  /** Octets as a number, the first the most significant. */
  function Value(o: bytes): nat
  {
    if o == [] then 0 else Value(o[..|o| - 1]) * 256 + o[|o| - 1]
  }

  /** The first and the last address of the network. */
  function First(net: IpNet): int
  {
    var host := Pow2(Width(net.addr) - net.prefixLen);
    Value(OctetsOf(net.addr)) / host * host
  }

  function Last(net: IpNet): int
  {
    First(net) + Pow2(Width(net.addr) - net.prefixLen) - 1
  }

  /** `IpNet::contains`: within the range, and of the same family. */
  predicate InRange(net: IpNet, ip: IpAddr)
  {
    net.addr.V4? == ip.V4? && First(net) <= Value(OctetsOf(ip)) <= Last(net)
  }

  // Section 3.1 of RFC 4632: an address is in the network if its leading bits are those of the prefix

  type Bit = b: int | 0 <= b <= 1

  /** The `n` low bits of a number, the most significant first. */
  function LowBits(x: nat, n: nat): (bits: seq<Bit>)
    ensures |bits| == n
  {
    if n == 0 then [] else LowBits(x / 2, n - 1) + [x % 2]
  }

  const OCTET_BITS: nat := 8

  function OctetBits(b: byte): (bits: seq<Bit>)
    ensures |bits| == 8
  {
    LowBits(b, OCTET_BITS)
  }

  function AddressBits(o: bytes): (bits: seq<Bit>)
    ensures |bits| == 8 * |o|
  {
    if o == [] then [] else AddressBits(o[..|o| - 1]) + OctetBits(o[|o| - 1])
  }

  predicate SamePrefix(net: IpNet, ip: IpAddr)
  {
    && net.addr.V4? == ip.V4?
    && AddressBits(OctetsOf(net.addr))[..net.prefixLen] == AddressBits(OctetsOf(ip))[..net.prefixLen]
  }

  /** Bits as a number. */
  function Number(bits: seq<Bit>): nat
  {
    if bits == [] then 0 else 2 * Number(bits[..|bits| - 1]) + bits[|bits| - 1]
  }

  lemma {:induction false} NumberBelow(bits: seq<Bit>)
    ensures Number(bits) < Pow2(|bits|)
    decreases |bits|
  {
    if bits != [] {
      NumberBelow(bits[..|bits| - 1]);
    }
  }

  lemma {:induction false} NumberConcat(a: seq<Bit>, b: seq<Bit>)
    ensures Number(a + b) == Number(a) * Pow2(|b|) + Number(b)
    decreases |b|
  {
    if b == [] {
      assert a + b == a;
    } else {
      var front := b[..|b| - 1];
      assert (a + b)[..|a + b| - 1] == a + front;
      NumberConcat(a, front);
      ShiftedIn(Number(a), Pow2(|front|), Number(front), b[|b| - 1]);
    }
  }

  lemma ShiftedIn(x: nat, p: nat, f: nat, last: Bit)
    ensures 2 * (x * p + f) + last == x * (2 * p) + (2 * f + last)
  {
  }

  lemma {:induction false} NumberInjective(a: seq<Bit>, b: seq<Bit>)
    requires |a| == |b| && Number(a) == Number(b)
    ensures a == b
    decreases |a|
  {
    if a != [] {
      NumberInjective(a[..|a| - 1], b[..|b| - 1]);
      assert a == a[..|a| - 1] + [a[|a| - 1]] && b == b[..|b| - 1] + [b[|b| - 1]];
    }
  }

  lemma {:induction false} LowBitsNumber(x: nat, n: nat)
    requires x < Pow2(n)
    ensures Number(LowBits(x, n)) == x
    decreases n
  {
    if n > 0 {
      LowBitsNumber(x / 2, n - 1);
      assert LowBits(x, n)[..n - 1] == LowBits(x / 2, n - 1);
    }
  }

  lemma Pow2Of8()
    ensures Pow2(8) == 256
  {
    assert Pow2(4) == 16;
  }

  lemma OctetNumber(b: byte)
    ensures Number(OctetBits(b)) == b
  {
    Pow2Of8();
    LowBitsNumber(b, OCTET_BITS);
  }

  lemma {:induction false} AddressNumber(o: bytes)
    ensures Number(AddressBits(o)) == Value(o)
    decreases |o|
  {
    if o != [] {
      var front, last := o[..|o| - 1], o[|o| - 1];
      AddressNumber(front);
      OctetNumber(last);
      NumberConcat(AddressBits(front), OctetBits(last));
      Pow2Of8();
    }
  }

  lemma MulMonotone(a: nat, b: nat, m: nat)
    requires a <= b
    ensures a * m <= b * m
  {
  }

  lemma DivUnique(v: nat, q: nat, m: nat, r: nat)
    requires m >= 1 && r < m && v == q * m + r
    ensures v / m == q
  {
    var d, e := v / m, v % m;
    Quotients(q, r, d, e, m);
  }

  lemma Quotients(q: nat, r: nat, d: nat, e: nat, m: nat)
    requires r < m && e < m && q * m + r == d * m + e
    ensures q == d
  {
    if d < q {
      MulMonotone(d + 1, q, m);
    } else if q < d {
      MulMonotone(q + 1, d, m);
    }
  }

  lemma DivOfSplit(a: seq<Bit>, b: seq<Bit>)
    ensures Number(a + b) / Pow2(|b|) == Number(a)
  {
    NumberConcat(a, b);
    NumberBelow(b);
    DivUnique(Number(a + b), Number(a), Pow2(|b|), Number(b));
  }

  /** The number above the host bits is the number of the leading bits. */
  lemma LeadingBits(o: bytes, p: nat)
    requires p <= 8 * |o|
    ensures Value(o) / Pow2(8 * |o| - p) == Number(AddressBits(o)[..p])
  {
    var bits := AddressBits(o);
    AddressNumber(o);
    assert bits == bits[..p] + bits[p..];
    DivOfSplit(bits[..p], bits[p..]);
  }

  /** Two numbers of the same length agree above the host bits exactly when the leading bits do. */
  lemma SameLeading(o: bytes, q: bytes, p: nat)
    requires |o| == |q| && p <= 8 * |o|
    ensures Value(q) / Pow2(8 * |o| - p) == Value(o) / Pow2(8 * |o| - p) <==> AddressBits(o)[..p] == AddressBits(q)[..p]
  {
    LeadingBits(o, p);
    LeadingBits(q, p);
    if Number(AddressBits(o)[..p]) == Number(AddressBits(q)[..p]) {
      NumberInjective(AddressBits(o)[..p], AddressBits(q)[..p]);
    }
  }

  lemma RangeIsQuotient(x: nat, y: nat, m: nat)
    requires m >= 1
    ensures x / m * m <= y <= x / m * m + m - 1 <==> y / m == x / m
  {
    var q := x / m;
    if q * m <= y <= q * m + m - 1 {
      DivUnique(y, q, m, y - q * m);
    }
    assert y == y / m * m + y % m;
  }

  /** The range test is the prefix test. */
  lemma InRangeIff(net: IpNet, ip: IpAddr)
    ensures InRange(net, ip) <==> SamePrefix(net, ip)
  {
    if net.addr.V4? == ip.V4? {
      SameLeading(OctetsOf(net.addr), OctetsOf(ip), net.prefixLen);
      RangeIsQuotient(Value(OctetsOf(net.addr)), Value(OctetsOf(ip)), Pow2(Width(net.addr) - net.prefixLen));
    }
  }

  lemma BitsInjective(a: bytes, b: bytes)
    requires AddressBits(a) == AddressBits(b)
    ensures a == b
    decreases |a|
  {
    if a != [] {
      var fa, fb := a[..|a| - 1], b[..|b| - 1];
      assert AddressBits(fa) == AddressBits(a)[..8 * |fa|] && AddressBits(fb) == AddressBits(b)[..8 * |fb|];
      assert OctetBits(a[|a| - 1]) == AddressBits(a)[8 * |fa|..] && OctetBits(b[|b| - 1]) == AddressBits(b)[8 * |fb|..];
      BitsInjective(fa, fb);
      OctetNumber(a[|a| - 1]);
      OctetNumber(b[|b| - 1]);
      assert a == fa + [a[|a| - 1]] && b == fb + [b[|b| - 1]];
    }
  }

  /** A host-length prefix holds one address. */
  lemma HostNetwork(net: IpNet, ip: IpAddr)
    requires net.prefixLen == Width(net.addr)
    ensures InRange(net, ip) <==> ip == net.addr
  {
    InRangeIff(net, ip);
    if SamePrefix(net, ip) {
      var o, p := OctetsOf(net.addr), OctetsOf(ip);
      assert AddressBits(o)[..8 * |o|] == AddressBits(o) && AddressBits(p)[..8 * |p|] == AddressBits(p);
      BitsInjective(o, p);
    }
  }

  lemma {:induction false} LeadingOctets(o: bytes, k: nat)
    requires k <= |o|
    ensures AddressBits(o)[..8 * k] == AddressBits(o[..k])
    decreases |o|
  {
    if k < |o| {
      var front := o[..|o| - 1];
      LeadingOctets(front, k);
      assert front[..k] == o[..k];
      assert AddressBits(o)[..8 * k] == AddressBits(front)[..8 * k];
    } else {
      assert o[..k] == o;
      assert AddressBits(o)[..8 * k] == AddressBits(o);
    }
  }

  /** A prefix of whole octets holds the addresses that start with these octets, such as `10.0.0.0/8` those that start
      with 10. */
  lemma WholeOctets(net: IpNet, ip: IpAddr, k: nat)
    requires net.prefixLen == 8 * k
    ensures InRange(net, ip) <==> match (net.addr, ip)
                                  case (V4(o), V4(p)) => o[..k] == p[..k]
                                  case (V6(o), V6(p)) => o[..k] == p[..k]
                                  case _ => false
  {
    InRangeIff(net, ip);
    if net.addr.V4? == ip.V4? {
      var o, p := OctetsOf(net.addr), OctetsOf(ip);
      LeadingOctets(o, k);
      LeadingOctets(p, k);
      if AddressBits(o[..k]) == AddressBits(p[..k]) {
        BitsInjective(o[..k], p[..k]);
      }
    }
  }

  // Trusted peers

  datatype TrustedProxies = TrustedProxies(exact: set<IpAddr>, cidrs: seq<IpNet>)
  {
    predicate Contains(ip: IpAddr)
    {
      ip in exact || exists i :: 0 <= i < |cidrs| && InRange(cidrs[i], ip)
    }
  }

  /** Some network of the list has the address, by its leading bits. */
  predicate Covered(nets: seq<IpNet>, ip: IpAddr)
  {
    exists i :: 0 <= i < |nets| && SamePrefix(nets[i], ip)
  }

  lemma CoveredSnoc(nets: seq<IpNet>, net: IpNet, ip: IpAddr)
    ensures Covered(nets + [net], ip) <==> Covered(nets, ip) || SamePrefix(net, ip)
  {
    if Covered(nets, ip) {
      var i :| 0 <= i < |nets| && SamePrefix(nets[i], ip);
      assert SamePrefix((nets + [net])[i], ip);
    }
    if SamePrefix(net, ip) {
      assert SamePrefix((nets + [net])[|nets|], ip);
    }
  }

  lemma ContainsSnoc(t: TrustedProxies, net: IpNet, ip: IpAddr)
    ensures t.(cidrs := t.cidrs + [net]).Contains(ip) <==> t.Contains(ip) || InRange(net, ip)
  {
    var t' := t.(cidrs := t.cidrs + [net]);
    if exists i :: 0 <= i < |t.cidrs| && InRange(t.cidrs[i], ip) {
      var i :| 0 <= i < |t.cidrs| && InRange(t.cidrs[i], ip);
      assert InRange(t'.cidrs[i], ip);
    }
    if InRange(net, ip) {
      assert InRange(t'.cidrs[|t.cidrs|], ip);
    }
  }

  /** One round of `from_ipnets` adds the network's addresses, wherever it puts them. */
  function Sorted(t: TrustedProxies, net: IpNet): TrustedProxies
  {
    if net.prefixLen == Width(net.addr) then t.(exact := t.exact + {net.addr}) else t.(cidrs := t.cidrs + [net])
  }

  lemma SortedContains(t: TrustedProxies, net: IpNet, ip: IpAddr)
    ensures Sorted(t, net).Contains(ip) <==> t.Contains(ip) || SamePrefix(net, ip)
  {
    InRangeIff(net, ip);
    if net.prefixLen == Width(net.addr) {
      HostNetwork(net, ip);
    } else {
      ContainsSnoc(t, net, ip);
    }
  }

  /** `from_ipnets`: host-length prefixes go to the set, the others to the list. The result trusts exactly the addresses
      of the networks given. */
  method FromIpnets(nets: seq<IpNet>) returns (t: TrustedProxies)
    ensures forall ip :: t.Contains(ip) <==> Covered(nets, ip)
    ensures forall i :: 0 <= i < |t.cidrs| ==> t.cidrs[i].prefixLen < Width(t.cidrs[i].addr)
  {
    var exact: set<IpAddr> := {};
    var cidrs: seq<IpNet> := [];
    var i := 0;
    while i < |nets|
      invariant 0 <= i <= |nets|
      invariant forall ip :: TrustedProxies(exact, cidrs).Contains(ip) <==> Covered(nets[..i], ip)
      invariant forall i :: 0 <= i < |cidrs| ==> cidrs[i].prefixLen < Width(cidrs[i].addr)
    {
      var net := nets[i];
      ghost var before := TrustedProxies(exact, cidrs);
      if net.prefixLen == Width(net.addr) {
        exact := exact + {net.addr};
      } else {
        cidrs := cidrs + [net];
      }
      assert TrustedProxies(exact, cidrs) == Sorted(before, net);
      assert nets[..i + 1] == nets[..i] + [net];
      forall ip ensures Sorted(before, net).Contains(ip) <==> Covered(nets[..i + 1], ip) {
        SortedContains(before, net, ip);
        CoveredSnoc(nets[..i], net, ip);
      }
      i := i + 1;
    }
    assert nets[..|nets|] == nets;
    t := TrustedProxies(exact, cidrs);
  }

  /** `with_cidrs` trusts the addresses given and those of the networks given. */
  lemma WithCidrsContains(addrs: set<IpAddr>, nets: seq<IpNet>, ip: IpAddr)
    ensures TrustedProxies(addrs, nets).Contains(ip) <==> ip in addrs || Covered(nets, ip)
  {
    forall i | 0 <= i < |nets| ensures InRange(nets[i], ip) <==> SamePrefix(nets[i], ip) {
      InRangeIff(nets[i], ip);
    }
  }

  // The policies

  function Trusted(t: TrustedProxies): SocketAddr -> PolicyDecision
  {
    (peer: SocketAddr) => if t.Contains(peer.ip) then Require else Reject
  }

  function MixedMode(t: TrustedProxies): SocketAddr -> PolicyDecision
  {
    (peer: SocketAddr) => if t.Contains(peer.ip) then Require else Ignore
  }

  /** The two ways to build a trusted set decide every peer alike, in both policies. */
  lemma EvaluateAgrees(nets: seq<IpNet>, t: TrustedProxies, peer: SocketAddr)
    requires forall ip :: t.Contains(ip) <==> Covered(nets, ip)
    ensures Trusted(t)(peer) == Trusted(TrustedProxies({}, nets))(peer) == if Covered(nets, peer.ip) then Require
            else Reject
    ensures MixedMode(t)(peer) == MixedMode(TrustedProxies({}, nets))(peer) == if Covered(nets, peer.ip) then Require
            else Ignore
  {
    WithCidrsContains({}, nets, peer.ip);
  }

  /** A listener that trusts `nets` believes a header exactly when it comes from one of them: a trusted peer is let
      in only with a header, an untrusted one only under mixed mode, and then as its own client. */
  lemma OnlyTrustedPeersSpeak(nets: seq<IpNet>, t: TrustedProxies, cfg: Config, peer: SocketAddr, permit: Permit,
                              schedule: Schedule, stream: bytes)
    requires forall ip :: t.Contains(ip) <==> Covered(nets, ip)
    requires cfg.policy == Trusted(t) || cfg.policy == MixedMode(t)
    ensures Parser.Bounded(Parser.Parse)
    ensures var h := Accept(Parser.Parse, cfg, peer, permit, schedule, stream);
            h.decision.Ok? ==>
              && (h.decision.value.info.Some? <==> Covered(nets, peer.ip))
              && (!Covered(nets, peer.ip) ==>
                    cfg.policy(peer) == Ignore && Proxied.ClientAddr(h.decision.value.info, peer) == peer)
  {
    EndToEnd.AcceptedMeans(cfg, peer, permit, schedule, stream);
  }
}
