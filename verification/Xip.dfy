/**
 * Intranet addresses (xnet/xip/ip.go): the test on dotted text against the address blocks
 * of section 3 of RFC 1918, and the filter over the host's interfaces built on it.
 */
module Xip {
  import opened Wrappers
  import opened Bytes
  import opened Strconv

  type Octet = n: int | 0 <= n < 256
  /** net.IP: 4 or 16 octets when it is an address, none when it is nil. */
  type IP = seq<Octet>

  const DOT: Byte := '.'

  predicate IsIntranet(ip: Str) {
    if ip == "127.0.0.1" then true
    else
      var parts := Split(ip, DOT);
      if |parts| != 4 then false
      else if parts[0] == "10" || (parts[0] == "192" && parts[1] == "168") then true
      else if parts[0] == "192" && parts[1] == "168" then true
      else
        parts[0] == "172" &&
        var second := ParseInt(parts[1], 64);
        second.verdict == Fine && 16 <= second.value <= 31
  }

  /** IP.String for an IPv4 address. */
  function Dotted(ip: IP): Str
    requires |ip| == 4
  {
    Join([Itoa(ip[0]), Itoa(ip[1]), Itoa(ip[2]), Itoa(ip[3])], DOT)
  }

  /** The 32-bit number of an IPv4 address. */
  function Address(ip: IP): int
    requires |ip| == 4
  {
    (((ip[0] as int) * 256 + ip[1] as int) * 256 + ip[2] as int) * 256 + ip[3] as int
  }

  /** 10/8, 172.16/12 and 192.168/16. */
  predicate InPrivateBlock(address: int) {
    || address / 0x100_0000 == 10
    || address / 0x10_0000 == 172 * 16 + 1
    || address / 0x1_0000 == 192 * 256 + 168
  }

  lemma {:induction false} ItoaInjective(m: nat, n: nat)
    ensures Itoa(m) == Itoa(n) <==> m == n
  {
  }

  lemma {:induction false} OctetNames()
    ensures Itoa(10) == "10" && Itoa(172) == "172" && Itoa(192) == "192" && Itoa(168) == "168"
    ensures Itoa(127) == "127" && Itoa(0) == "0" && Itoa(1) == "1"
  {
    assert Itoa(1) == "1" && Itoa(17) == "17" && Itoa(19) == "19" && Itoa(16) == "16" && Itoa(12) == "12";
  }

  lemma {:induction false} Leading(ip: IP)
    requires |ip| == 4
    ensures Address(ip) / 0x100_0000 == ip[0] as int
    ensures Address(ip) / 0x10_0000 == ip[0] as int * 16 + ip[1] as int / 16
    ensures Address(ip) / 0x1_0000 == ip[0] as int * 256 + ip[1] as int
  {
  }

  lemma {:induction false} SameTexts(ip: IP, ip': IP)
    requires |ip| == 4 && |ip'| == 4
    requires [Itoa(ip[0]), Itoa(ip[1]), Itoa(ip[2]), Itoa(ip[3])] ==
             [Itoa(ip'[0]), Itoa(ip'[1]), Itoa(ip'[2]), Itoa(ip'[3])]
    ensures ip == ip'
  {
    ItoaInjective(ip[0], ip'[0]);
    ItoaInjective(ip[1], ip'[1]);
    ItoaInjective(ip[2], ip'[2]);
    ItoaInjective(ip[3], ip'[3]);
  }

  lemma {:induction false} LocalhostJoin()
    ensures Join(["127", "0", "0", "1"], DOT) == "127.0.0.1"
  {
    var parts: seq<Str> := ["127", "0", "0", "1"];
    assert Join(parts[3..], DOT) == "1";
    assert Join(parts[2..], DOT) == "0.1";
    assert Join(parts[1..], DOT) == "0.0.1";
  }

  /** Decimal digits, a plus sign before them allowed, of a number from 16 to 31. */
  predicate SecondOfB(b: Str) {
    var digits := if b != [] && b[0] == '+' then b[1..] else b;
    digits != [] && AllDigits(digits) && 16 <= Value(digits) <= 31
  }

  lemma {:induction false} SecondExact(b: Str)
    ensures var p := ParseInt(b, 64); p.verdict == Fine && 16 <= p.value <= 31 <==> SecondOfB(b)
  {
    Pow2Int64();
    assert Pow2(64) == 2 * Pow2(63);
    if b != [] {
      var digits := if b[0] == '+' || b[0] == '-' then b[1..] else b;
      ParseUintExact(digits, 64);
      ParseUintRange(digits, 64);
      assert b[0] == '-' ==> !IsDigit(b[0]) && ParseInt(b, 64).value <= 0;
    }
  }

  /**
   * On any text in four parts, whatever they hold: the test looks at the first, at the second for
   * two of the blocks, and at the others only for the loopback address. A number in the second
   * may have leading zeros or a plus sign.
   */
  lemma {:induction false} IsIntranetLoose(a: Str, b: Str, c: Str, d: Str)
    requires DOT !in a && DOT !in b && DOT !in c && DOT !in d
    ensures IsIntranet(Join([a, b, c, d], DOT)) <==>
            || a == "10" || (a == "192" && b == "168") || (a == "172" && SecondOfB(b))
            || [a, b, c, d] == ["127", "0", "0", "1"]
  {
    var parts: seq<Str> := [a, b, c, d];
    var local: seq<Str> := ["127", "0", "0", "1"];
    SplitJoinFree(parts, DOT);
    SplitJoinFree(local, DOT);
    LocalhostJoin();
    SecondExact(b);
    assert Join(parts, DOT) == "127.0.0.1" <==> parts == local;
  }

  /** And no text with more or fewer dots passes. */
  lemma {:induction false} IsIntranetFourParts(ip: Str)
    requires IsIntranet(ip)
    ensures Count(ip, DOT) == 3
  {
    if ip == "127.0.0.1" {
      LocalhostJoin();
      SplitJoinFree(["127", "0", "0", "1"], DOT);
    }
    JoinSplit(ip, DOT);
  }

  /** The octets both tests come down to. */
  predicate PrivateOctets(ip: IP)
    requires |ip| == 4
  {
    ip[0] == 10 || (ip[0] == 192 && ip[1] == 168) || (ip[0] == 172 && 16 <= ip[1] <= 31)
  }

  lemma {:induction false} FirstOctets(ip: IP)
    requires |ip| == 4
    ensures Itoa(ip[0]) == "10" <==> ip[0] == 10
    ensures Itoa(ip[0]) == "172" <==> ip[0] == 172
    ensures Itoa(ip[0]) == "192" <==> ip[0] == 192
    ensures Itoa(ip[1]) == "168" <==> ip[1] == 168
  {
    OctetNames();
    ItoaInjective(ip[0], 10);
    ItoaInjective(ip[0], 172);
    ItoaInjective(ip[0], 192);
    ItoaInjective(ip[1], 168);
  }

  lemma {:induction false} SecondOctet(n: Octet)
    ensures SecondOfB(Itoa(n)) <==> 16 <= n <= 31
  {
    Pow2Int64();
    ParseIntItoa(n, 64);
    SecondExact(Itoa(n));
  }

  lemma {:induction false} LocalTexts(ip: IP)
    requires |ip| == 4
    ensures [Itoa(ip[0]), Itoa(ip[1]), Itoa(ip[2]), Itoa(ip[3])] == ["127", "0", "0", "1"] <==> ip == [127, 0, 0, 1]
  {
    OctetNames();
    if [Itoa(ip[0]), Itoa(ip[1]), Itoa(ip[2]), Itoa(ip[3])] == ["127", "0", "0", "1"] {
      SameTexts(ip, [127, 0, 0, 1]);
    }
  }

  lemma {:induction false} TextTest(ip: IP)
    requires |ip| == 4
    ensures IsIntranet(Dotted(ip)) <==> PrivateOctets(ip) || ip == [127, 0, 0, 1]
  {
    ItoaBytes(ip[0], DOT);
    ItoaBytes(ip[1], DOT);
    ItoaBytes(ip[2], DOT);
    ItoaBytes(ip[3], DOT);
    IsIntranetLoose(Itoa(ip[0]), Itoa(ip[1]), Itoa(ip[2]), Itoa(ip[3]));
    FirstOctets(ip);
    SecondOctet(ip[1]);
    LocalTexts(ip);
  }

  lemma {:induction false} NumericTest(ip: IP)
    requires |ip| == 4
    ensures InPrivateBlock(Address(ip)) <==> PrivateOctets(ip)
    ensures Address(ip) == 0x7F00_0001 <==> ip == [127, 0, 0, 1]
  {
    Leading(ip);
  }

  /** On every IPv4 address the textual test is the numeric one. */
  lemma {:induction false} IsIntranetExact(ip: IP)
    requires |ip| == 4
    ensures IsIntranet(Dotted(ip)) <==> InPrivateBlock(Address(ip)) || Address(ip) == 0x7F00_0001
  {
    TextTest(ip);
    NumericTest(ip);
  }

  // ---- the interfaces of the host --------------------------------------------------

  datatype Addr = IPNet(ip: IP) | IPAddr(ip: IP) | OtherAddr

  /** addrs is None when reading the interface's addresses fails. */
  datatype Interface = Interface(up: bool, loopback: bool, name: Str, addrs: Option<seq<Addr>>)

  const V4_IN_V6: IP := [0, 0, 0, 0, 0, 0, 0, 0, 0, 0, 255, 255]
  const V6_LOOPBACK: IP := [0, 0, 0, 0, 0, 0, 0, 0, 0, 0, 0, 0, 0, 0, 0, 1]

  /** IP.To4 */
  function To4(ip: IP): (v4: IP)
    ensures v4 == [] || |v4| == 4
  {
    if |ip| == 4 then ip
    else if |ip| == 16 && ip[..12] == V4_IN_V6 then ip[12..]
    else []
  }

  /** IP.IsLoopback */
  predicate IsLoopback(ip: IP) {
    var v4 := To4(ip);
    if v4 != [] then v4[0] == 127 else ip == V6_LOOPBACK
  }

  function AddrIP(addr: Addr): IP {
    if addr.OtherAddr? then [] else addr.ip
  }

  /** The text of an address, if it is IPv4 and lies in a private block. */
  function Kept(addr: Addr): seq<Str> {
    var v4 := To4(AddrIP(addr));
    if v4 != [] && InPrivateBlock(Address(v4)) then [Dotted(v4)] else []
  }

  /** Addresses of a list that are IPv4 and lie in a private block, in order, as text. */
  function PrivateOf(addrs: seq<Addr>): seq<Str> {
    if addrs == [] then [] else PrivateOf(addrs[..|addrs| - 1]) + Kept(addrs[|addrs| - 1])
  }

  predicate Considered(i: Interface) {
    i.up && !i.loopback && !("w-" <= i.name)
  }

  /** The addresses found, and whether there was no error: interfaces listed, and every one considered read. */
  datatype Found = Found(ips: seq<Str>, complete: bool)

  function PrivateOfHost(interfaces: seq<Interface>): Found {
    if interfaces == [] then Found([], true)
    else
      var before := PrivateOfHost(interfaces[..|interfaces| - 1]);
      var i := interfaces[|interfaces| - 1];
      if !before.complete || !Considered(i) then before
      else if i.addrs.None? then before.(complete := false)
      else before.(ips := before.ips + PrivateOf(i.addrs.value))
  }

  lemma {:induction false} PrivateOfHostStops(interfaces: seq<Interface>, n: nat)
    requires n <= |interfaces| && !PrivateOfHost(interfaces[..n]).complete
    ensures PrivateOfHost(interfaces) == PrivateOfHost(interfaces[..n])
    decreases |interfaces|
  {
    if n < |interfaces| {
      var init := interfaces[..|interfaces| - 1];
      assert init[..n] == interfaces[..n];
      PrivateOfHostStops(init, n);
    } else {
      assert interfaces[..n] == interfaces;
    }
  }

  /** The test of one address in GetIntranetIpArray. */
  predicate Passes(addr: Addr) {
    var ip := AddrIP(addr);
    ip != [] && !IsLoopback(ip) && To4(ip) != [] && IsIntranet(Dotted(To4(ip)))
  }

  /** IsIntranet, asked of an address that is no loopback one, answers for the private blocks. */
  lemma {:induction false} PassesExact(addr: Addr)
    ensures Kept(addr) == if Passes(addr) then [Dotted(To4(AddrIP(addr)))] else []
  {
    var v4 := To4(AddrIP(addr));
    if v4 != [] {
      TextTest(v4);
      NumericTest(v4);
    }
  }

  lemma {:induction false} PrivateNext(addrs: seq<Addr>, m: nat)
    requires m < |addrs|
    ensures PrivateOf(addrs[..m + 1]) == PrivateOf(addrs[..m]) + Kept(addrs[m])
  {
    assert addrs[..m + 1][..m] == addrs[..m];
  }

  /** The inner loop of GetIntranetIpArray, over the addresses of one interface. */
  method AppendPrivate(addrs: seq<Addr>, before: seq<Str>) returns (ips: seq<Str>)
    ensures ips == before + PrivateOf(addrs)
  {
    ips := before;
    for m := 0 to |addrs|
      invariant ips == before + PrivateOf(addrs[..m])
    {
      PrivateNext(addrs, m);
      PassesExact(addrs[m]);
      if Passes(addrs[m]) {
        ips := ips + [Dotted(To4(AddrIP(addrs[m])))];
      }
    }
    assert addrs[..|addrs|] == addrs;
  }

  /**
   * GetIntranetIpArray over what net.Interfaces returned, if it did not fail. It keeps every
   * address of a private block on an interface it considers, in order, and stops with what it has
   * at the first one it cannot read.
   */
  method GetIntranetIpArray(listed: Option<seq<Interface>>) returns (found: Found)
    ensures found == if listed.None? then Found([], false) else PrivateOfHost(listed.value)
  {
    if listed.None? {
      return Found([], false);
    }
    var interfaces := listed.value;
    var ips: seq<Str> := [];
    for n := 0 to |interfaces|
      invariant PrivateOfHost(interfaces[..n]) == Found(ips, true)
    {
      var interface := interfaces[n];
      assert interfaces[..n + 1][..n] == interfaces[..n];
      if interface.up && !interface.loopback && !("w-" <= interface.name) {
        if interface.addrs.None? {
          PrivateOfHostStops(interfaces, n + 1);
          return Found(ips, false);
        }
        ips := AppendPrivate(interface.addrs.value, ips);
      }
    }
    assert interfaces[..|interfaces|] == interfaces;
    found := Found(ips, true);
  }

  // ---- the same in plain terms --------------------------------------------------------

  /** The text of an address: its octets in decimal, in order, dots between. */
  lemma {:induction false} DottedExact(ip: IP)
    requires |ip| == 4
    ensures Split(Dotted(ip), '.') == [Itoa(ip[0]), Itoa(ip[1]), Itoa(ip[2]), Itoa(ip[3])]
    ensures Dotted([192, 168, 0, 1]) == "192.168.0.1"
  {
    ItoaBytes(ip[0], DOT);
    ItoaBytes(ip[1], DOT);
    ItoaBytes(ip[2], DOT);
    ItoaBytes(ip[3], DOT);
    SplitJoinFree([Itoa(ip[0]), Itoa(ip[1]), Itoa(ip[2]), Itoa(ip[3])], DOT);
    OctetNames();
    var parts: seq<Str> := ["192", "168", "0", "1"];
    assert Join(parts[3..], DOT) == "1";
    assert Join(parts[2..], DOT) == "0.1";
    assert Join(parts[1..], DOT) == "168.0.1";
  }

  /** Four octets are an IPv4 address, and so are sixteen that are ten zeros, two of all ones and these four. */
  lemma {:induction false} To4Exact(ip: IP, v4: IP)
    requires |v4| == 4
    ensures To4(ip) == v4 <==>
            || ip == v4
            || (|ip| == 16 && (forall i :: 0 <= i < 10 ==> ip[i] == 0) && ip[10] == ip[11] == 255 && ip[12..] == v4)
  {
    if |ip| == 16 {
      assert ip[..12] == V4_IN_V6 <==> (forall i :: 0 <= i < 12 ==> ip[i] == V4_IN_V6[i]);
    }
  }

  /** An interface that counts: up, no loopback, and no bridge with a name that begins with w and a dash. */
  predicate Counts(i: Interface) {
    i.up && !i.loopback && !(|i.name| >= 2 && i.name[0] == 'w' && i.name[1] == '-')
  }

  lemma {:induction false} CountsExact(i: Interface)
    ensures Considered(i) <==> Counts(i)
  {
    if |i.name| >= 2 {
      assert "w-" <= i.name <==> i.name[0] == 'w' && i.name[1] == '-';
    }
  }

  /** The address has this text, is IPv4 and lies in a private block. */
  predicate IsOffer(a: Addr, text: Str) {
    !a.OtherAddr? && To4(a.ip) != [] && InPrivateBlock(Address(To4(a.ip))) && text == Dotted(To4(a.ip))
  }

  ghost predicate Offers(addrs: seq<Addr>, text: Str) {
    exists a :: a in addrs && IsOffer(a, text)
  }

  lemma {:induction false} PrivateOfExact(addrs: seq<Addr>, text: Str)
    ensures text in PrivateOf(addrs) <==> Offers(addrs, text)
  {
    if addrs != [] {
      var n := |addrs| - 1;
      var init, last := addrs[..n], addrs[n];
      PrivateOfExact(init, text);
      assert addrs == init + [last];
      PrivateOfMore(init, last, text);
      assert Offers(init + [last], text) <==> Offers(init, text) || IsOffer(last, text);
    }
  }

  lemma {:induction false} PrivateOfMore(init: seq<Addr>, last: Addr, text: Str)
    ensures text in PrivateOf(init + [last]) <==> text in PrivateOf(init) || IsOffer(last, text)
  {
    assert (init + [last])[..|init|] == init;
  }

  ghost predicate HostOffers(interfaces: seq<Interface>, text: Str) {
    exists i :: i in interfaces && Counts(i) && i.addrs.Some? && Offers(i.addrs.value, text)
  }

  /**
   * The addresses found when every interface that counts can be read: exactly those of private blocks
   * on interfaces that count.
   */
  lemma {:induction false} HostExact(interfaces: seq<Interface>, text: Str)
    requires PrivateOfHost(interfaces).complete
    ensures text in PrivateOfHost(interfaces).ips <==> HostOffers(interfaces, text)
  {
    if interfaces != [] {
      var n := |interfaces| - 1;
      var init, last := interfaces[..n], interfaces[n];
      assert interfaces == init + [last];
      FoundMore(init, last, text);
      HostExact(init, text);
      OneInterfaceMore(init, last, text);
    }
  }

  lemma {:induction false} FoundMore(init: seq<Interface>, last: Interface, text: Str)
    requires PrivateOfHost(init + [last]).complete
    ensures PrivateOfHost(init).complete
    ensures text in PrivateOfHost(init + [last]).ips <==>
            text in PrivateOfHost(init).ips || (Counts(last) && last.addrs.Some? && Offers(last.addrs.value, text))
  {
    assert (init + [last])[..|init|] == init;
    CountsExact(last);
    if last.addrs.Some? { PrivateOfExact(last.addrs.value, text); }
  }

  lemma {:induction false} OneInterfaceMore(init: seq<Interface>, last: Interface, text: Str)
    ensures HostOffers(init + [last], text) <==>
            HostOffers(init, text) || (Counts(last) && last.addrs.Some? && Offers(last.addrs.value, text))
  {
    if HostOffers(init, text) {
      var i :| i in init && Counts(i) && i.addrs.Some? && Offers(i.addrs.value, text);
      assert i in init + [last];
    }
    if Counts(last) && last.addrs.Some? && Offers(last.addrs.value, text) {
      assert last in init + [last];
    }
  }

  /** And exactly then there is no error: none that counts is unreadable. */
  lemma {:induction false} CompleteExact(interfaces: seq<Interface>)
    ensures PrivateOfHost(interfaces).complete <==> forall i :: i in interfaces && Counts(i) ==> i.addrs.Some?
  {
    if interfaces != [] {
      var n := |interfaces| - 1;
      CompleteExact(interfaces[..n]);
      CountsExact(interfaces[n]);
      assert interfaces == interfaces[..n] + [interfaces[n]];
    }
  }
}
