/** Host addresses and the controller's address-to-switch rule
    (`ip_to_edge_dpid` of lab2/sp_routing.py).

    Addresses travel as dotted-quad strings, as Ryu renders them. The
    controller reads the second and third octet of an address as the pod and
    the edge switch of the host's home edge switch, whose dpid is the decimal
    number "2" + pod + edge. */
module Addressing {
  import opened Wrappers
  import opened Seqs
  import opened Text

  /** `list(map(int, parts))` */
  function ParseInts(parts: seq<string>): Option<seq<int>>
  {
    MapAll(parts, PyInt)
  }

  /** `ip_to_edge_dpid(ip)`. The bare `except` turns every ValueError (a part
      that is not an integer, a negative pod or edge making `"2-1..."`) and
      every IndexError (fewer than three parts) into `None`. */
  function IpToEdgeDpid(ip: string): Option<int>
  {
    match ParseInts(Split(ip, '.'))
    case None => None
    case Some(ns) => if |ns| < 3 then None else PyInt("2" + Str(ns[1]) + Str(ns[2]))
  }

  /** What `ip_to_edge_dpid` accepts and what it answers: an address of at
      least three integer parts with non-negative second and third part p and
      e maps to the number "2" + str(p) + str(e); anything else to `None`. */
  lemma IpToEdgeDpidMeaning(ip: string)
    ensures var parts := Split(ip, '.');
      && (IpToEdgeDpid(ip).Some? <==>
            && |parts| >= 3
            && (forall i :: 0 <= i < |parts| ==> PyInt(parts[i]).Some?)
            && PyInt(parts[1]).value >= 0 && PyInt(parts[2]).value >= 0)
      && (IpToEdgeDpid(ip).Some? ==>
            IpToEdgeDpid(ip).value == HomeDpid(PyInt(parts[1]).value, PyInt(parts[2]).value))
  {
    var parts := Split(ip, '.');
    var ns := ParseInts(parts);
    if ns.Some? && |parts| >= 3 {
      var p, e := ns.value[1], ns.value[2];
      HomeDpidDigits(p, e);
    }
  }

  /** An address with a dot-separated part that starts with a separator
      character (0x1C-0x1F) has no home switch: `int()` raises on that part. */
  lemma IpToEdgeDpidSeparator(ip: string, i: nat)
    requires var parts := Split(ip, '.');
      i < |parts| && |parts[i]| > 0 && 28 <= parts[i][0] as int <= 31
    ensures IpToEdgeDpid(ip) == None
  {
    PyIntLeadingSeparator(Split(ip, '.')[i]);
    IpToEdgeDpidMeaning(ip);
  }

  /** The number "2" + str(p) + str(e): the dpid the naming scheme gives
      edge switch e of pod p. */
  function HomeDpid(p: nat, e: nat): nat
  {
    Glue(Glue(2, p), e)
  }

  /** `int(f"2{p}{e}")` */
  lemma HomeDpidDigits(p: int, e: int)
    ensures PyInt("2" + Str(p) + Str(e)).Some? <==> p >= 0 && e >= 0
    ensures p >= 0 && e >= 0 ==> PyInt("2" + Str(p) + Str(e)) == Some(HomeDpid(p, e) as int)
  {
    var s := "2" + Str(p) + Str(e);
    assert s[|s| - 1] == Str(e)[|Str(e)| - 1];
    assert IsDigit(Str(e)[|Str(e)| - 1]) by {
      if e < 0 {
        assert Str(e)[|Str(e)| - 1] == Str(e)[1..][|Str(e)| - 2];
      }
    }
    if p < 0 {
      PyIntInnerMinus(s, 1);
    } else if e < 0 {
      assert s[1 + |Dec(p)|] == '-';
      PyIntInnerMinus(s, 1 + |Dec(p)|);
    } else {
      assert s == Dec(2) + Dec(p) + Dec(e);
      GlueDec3(2, p, e);
      PyIntDigits(s);
    }
  }

  /** A dotted-quad address `a.b.c.d`. */
  datatype Ipv4 = Ipv4(a: nat, b: nat, c: nat, d: nat)

  function Octets(ip: Ipv4): seq<string>
  {
    [Dec(ip.a), Dec(ip.b), Dec(ip.c), Dec(ip.d)]
  }

  /** The string form of an address: `str` of each octet, joined by dots. */
  function Dotted(ip: Ipv4): string
  {
    Join(Octets(ip), '.')
  }

  lemma DottedConcat(ip: Ipv4)
    ensures Dotted(ip) == Dec(ip.a) + "." + Dec(ip.b) + "." + Dec(ip.c) + "." + Dec(ip.d)
  {
    var o := Octets(ip);
    var o1, o2, o3 := [Dec(ip.b), Dec(ip.c), Dec(ip.d)], [Dec(ip.c), Dec(ip.d)], [Dec(ip.d)];
    assert o[1..] == o1 && o1[1..] == o2 && o2[1..] == o3;
    assert Join(o3, '.') == Dec(ip.d);
    assert Join(o2, '.') == Dec(ip.c) + "." + Dec(ip.d);
    assert Join(o1, '.') == Dec(ip.b) + "." + Dec(ip.c) + "." + Dec(ip.d);
  }

  lemma DottedParts(ip: Ipv4)
    ensures Split(Dotted(ip), '.') == Octets(ip)
  {
    var o := Octets(ip);
    forall i | 0 <= i < |o|
      ensures '.' !in o[i]
    {
      assert forall j :: 0 <= j < |o[i]| ==> o[i][j] != '.';
    }
    SplitJoin(o, '.');
  }

  /** Different addresses have different dotted forms. */
  lemma DottedInjective(x: Ipv4, y: Ipv4)
    requires Dotted(x) == Dotted(y)
    ensures x == y
  {
    DottedParts(x);
    DottedParts(y);
    assert Octets(x) == Octets(y);
    DecInjective(x.a, y.a);
    DecInjective(x.b, y.b);
    DecInjective(x.c, y.c);
    DecInjective(x.d, y.d);
  }

  /** The home edge switch of a dotted-quad address is named by its second
      and third octet. */
  lemma DottedHomeDpid(ip: Ipv4)
    ensures IpToEdgeDpid(Dotted(ip)) == Some(HomeDpid(ip.b, ip.c) as int)
  {
    DottedParts(ip);
    OctetsParse(ip);
    HomeDpidDigits(ip.b, ip.c);
  }

  lemma OctetsParse(ip: Ipv4)
    ensures ParseInts(Octets(ip)) == Some([ip.a as int, ip.b as int, ip.c as int, ip.d as int])
  {
    var o, w := Octets(ip), [ip.a as int, ip.b as int, ip.c as int, ip.d as int];
    forall i | 0 <= i < 4
      ensures PyInt(o[i]) == Some(w[i])
    {
      OctetParses(ip, i);
    }
    MapAllSome(o, PyInt, w);
  }

  function OctetValue(ip: Ipv4, i: nat): nat
    requires i < 4
  {
    [ip.a, ip.b, ip.c, ip.d][i]
  }

  lemma OctetParses(ip: Ipv4, i: nat)
    requires i < 4
    ensures PyInt(Octets(ip)[i]) == Some(OctetValue(ip, i) as int)
  {
    assert Octets(ip)[i] == Dec(OctetValue(ip, i));
    PyIntDec(OctetValue(ip, i));
  }

  /** The match `ipv4_dst=(dst, "255.255.255.0")`: the first three octets agree. */
  predicate InSlash24(x: Ipv4, dst: Ipv4)
  {
    x.a == dst.a && x.b == dst.b && x.c == dst.c
  }

  /** Every address a /24 flow rule for `dst` catches has the same home edge
      switch as `dst`. */
  lemma Slash24SameHome(x: Ipv4, dst: Ipv4)
    requires InSlash24(x, dst)
    ensures IpToEdgeDpid(Dotted(x)).Some?
    ensures IpToEdgeDpid(Dotted(x)) == IpToEdgeDpid(Dotted(dst))
  {
    DottedHomeDpid(x);
    DottedHomeDpid(dst);
  }

  /** For one-digit pods and edge switches the home dpid is 200 + 10p + e,
      and different (pod, edge) pairs have different home dpids. */
  lemma HomeDpidSmall(p: nat, e: nat, q: nat, f: nat)
    requires p < 10 && e < 10 && q < 10 && f < 10
    ensures HomeDpid(p, e) == 200 + 10 * p + e
    ensures HomeDpid(p, e) == HomeDpid(q, f) <==> p == q && e == f
  {
    GlueSmall(2, p);
    GlueSmall(Glue(2, p), e);
    GlueSmall(2, q);
    GlueSmall(Glue(2, q), f);
  }
}
