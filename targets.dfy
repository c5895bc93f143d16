/**
  One entry of the target list (`-o ip:port,ip:port,...`): the address and port whose
  response packets the agent captures. `inet_addr` and `atoi` are libc routines whose
  code is not part of this model; they are parameters with the C signatures.
*/
module Targets {
  import opened Net
  import opened CStrings

  /** `ip_port_pair_t`: both fields in network byte order; an IP of 0 is the wildcard. */
  datatype IpPort = IpPort(ip: U32, port: U16)

  /** The pair a fresh, zeroed allocation holds. */
  const Zero := IpPort(0, 0)

  /** `inet_addr`: dotted text to an address in network byte order. */
  type InetAddr = seq<char> -> U32

  /** `atoi`: text to a C `int`. */
  type Atoi = seq<char> -> int

  /**
    What one token of the target list denotes: without a `':'` the IP is 0 and the whole
    token is the port; otherwise the IP is the text before the first `':'` and the port
    the text after it. The port is truncated to 16 bits and stored by `htons`.
  */
  function ParseToken(tok: seq<char>, inetAddr: InetAddr, atoi: Atoi): IpPort
  {
    var k := IndexOf(tok, ':');
    if k < 0 then IpPort(0, Htons(ToU16(atoi(tok))))
    else IpPort(inetAddr(tok[..k]), Htons(ToU16(atoi(tok[k + 1..]))))
  }

  /** The outcome of `ParseToken`, stated case by case. */
  lemma ParseTokenCases(tok: seq<char>, inetAddr: InetAddr, atoi: Atoi)
    ensures ':' !in tok ==>
      ParseToken(tok, inetAddr, atoi) == IpPort(0, Htons(ToU16(atoi(tok))))
    ensures forall ipText, portText ::
      ':' !in ipText && tok == ipText + [':'] + portText ==>
      ParseToken(tok, inetAddr, atoi) == IpPort(inetAddr(ipText), Htons(ToU16(atoi(portText))))
  {
    forall ipText, portText | ':' !in ipText && tok == ipText + [':'] + portText
      ensures ParseToken(tok, inetAddr, atoi) == IpPort(inetAddr(ipText), Htons(ToU16(atoi(portText))))
    {
      IndexOfAfter(ipText, ':', portText);
      assert tok[..|ipText|] == ipText;
      assert tok[|ipText| + 1..] == portText;
    }
  }

  /** Reading the port back with `ntohs` gives the truncated number the token spelled. */
  lemma ParseTokenPort(tok: seq<char>, inetAddr: InetAddr, atoi: Atoi)
    ensures var k := IndexOf(tok, ':');
      Htons(ParseToken(tok, inetAddr, atoi).port)
        == ToU16(atoi(if k < 0 then tok else tok[k + 1..]))
  {
    var k := IndexOf(tok, ':');
    HtonsInvolutive(ToU16(atoi(if k < 0 then tok else tok[k + 1..])));
  }

  /**
    `parse_target(pair, addr)`: parses the C string that starts at `addr[lo]`. While it reads
    the IP it overwrites the first `':'` with NUL and writes the `':'` back afterwards, so the
    caller's characters are the same on return.
  */
  method ParseTarget(addr: array<char>, lo: nat, inetAddr: InetAddr, atoi: Atoi) returns (pair: IpPort)
    requires lo <= addr.Length
    modifies addr
    ensures addr[..] == old(addr[..])
    ensures pair == ParseToken(CStr(old(addr[lo..])), inetAddr, atoi)
  {
    ghost var s := addr[lo..];
    var ip: U32;
    var portStart: nat;
    var sep := Strchr(addr, lo, ':');
    if sep == -1 {
      ip := 0;
      portStart := lo;
    } else {
      ip := ReadIp(addr, lo, sep, inetAddr);
      portStart := sep + 1;
      assert CStr(addr[portStart..]) == CStr(s)[sep - lo + 1..] by {
        CStrDrop(s, sep - lo);
        assert s[sep - lo + 1..] == addr[portStart..];
      }
    }
    var port := ToU16(atoi(CStr(addr[portStart..])));
    pair := IpPort(ip, Htons(port));
  }

  /**
    The IP half of `parse_target`: cuts the string at the `':'` found at `sep` with a NUL,
    reads the address before it and puts the `':'` back.
  */
  method ReadIp(addr: array<char>, lo: nat, sep: nat, inetAddr: InetAddr) returns (ip: U32)
    requires lo <= sep < addr.Length && sep - lo < StrLen(addr[lo..]) && addr[sep] == ':'
    modifies addr
    ensures addr[..] == old(addr[..])
    ensures ip == inetAddr(CStr(old(addr[lo..]))[..sep - lo])
  {
    ghost var a0 := addr[..];
    ghost var s := addr[lo..];
    ghost var k := sep - lo;
    addr[sep] := '\0';
    assert CStr(addr[lo..]) == CStr(s)[..k] by {
      assert addr[lo..] == s[k := '\0'];
      CStrCut(s, k);
    }
    ip := inetAddr(CStr(addr[lo..]));
    addr[sep] := ':';
    assert addr[..] == a0;
  }

  /** The pairs a whole target list denotes: one per comma-separated token, in order. */
  function ParseList(s: seq<char>, inetAddr: InetAddr, atoi: Atoi): seq<IpPort>
  {
    var toks := Split(s, ',');
    seq(|toks|, k requires 0 <= k < |toks| => ParseToken(toks[k], inetAddr, atoi))
  }

  /**
    One pair per comma plus one; the last pair is the parse of everything after the final
    comma, possibly the empty token.
  */
  lemma ParseListLast(a: seq<char>, b: seq<char>, inetAddr: InetAddr, atoi: Atoi)
    requires ',' !in b
    ensures var r := ParseList(a + [','] + b, inetAddr, atoi);
      |r| == Count(a, ',') + 2 && r[|r| - 1] == ParseToken(b, inetAddr, atoi)
  {
    var toks := Split(a + [','] + b, ',');
    SplitConcat(a, ',', b);
    SplitLength(a, ',');
    assert IndexOf(b, ',') == -1;
    assert Split(b, ',') == [b];
    assert toks == Split(a, ',') + [b];
    assert |toks| == Count(a, ',') + 2 && toks[|toks| - 1] == b;
  }
}
