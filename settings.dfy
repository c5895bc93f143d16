/**
  The interception agent's settings record (`srv_settings`) and the start-up code that fills
  and normalises it (src/interception/main.c): the defaults, the combine count, the list of
  IPs let through the firewall, the target list, the capture device and filter, the queue
  length and the page-size shift. Build-time switches (`TC_ADVANCED`, `TC_PCAP`, ...) are a
  `Build` value; `inet_addr`, `atoi`, `construct_filter`, `retrieve_devices`, `getpagesize`
  and `daemonize` are parameters.
*/
module Settings {
  import opened Net
  import opened CStrings
  import opened Targets
  import opened FilterBuilder

  /** `SERVER_PORT`: the default port the agent listens on for replication agents. */
  const SERVER_PORT: int := 36524
  /** The default session-table size `settings_init` sets. */
  const DEFAULT_HASH_SIZE: int := 65536
  /** `MAX_ALLOWED_IP_NUM`: capacity of the pass-through IP table. */
  const MAX_ALLOWED_IP_NUM: nat := 32
  /** `COMB_MAX_NUM`: the largest number of packets combined into one tunnel message. */
  const COMB_MAX_NUM: int := 16
  /** `MAX_FILTER_LENGH`: size of the filter buffer (the source's spelling). */
  const MAX_FILTER_LENGH: nat := 4096
  /** `DEFAULT_DEVICE`: the device name meaning "capture on every interface". */
  const DEFAULT_DEVICE: seq<char> := "any"
  /** Queue lengths up to this value are replaced by the "kernel default" sentinel -1. */
  const QUEUE_LEN_FLOOR: int := 1024
  /** Size of `retrieve_ip_addr`'s scratch buffer `tmp`. */
  const SCRATCH_LEN: nat := 32

  datatype Option<T> = None | Some(value: T)

  /** The build-time switches the code is compiled under. */
  datatype Build = Build(advanced: bool, pcap: bool, nfqueue: bool, combined: bool, single: bool, udp: bool)

  /** `retrieve_devices(raw_device, &devices)`: the device names a device list denotes. */
  type RetrieveDevices = seq<char> -> seq<seq<char>>

  // ------------------------------------------------------------ page-size shift

  function Pow2(k: nat): (r: nat)
    ensures r >= 1
  {
    if k == 0 then 1 else 2 * Pow2(k - 1)
  }

  /** How many times a number can be halved before it reaches 0. */
  function BitLength(n: nat): nat
  {
    if n == 0 then 0 else 1 + BitLength(n / 2)
  }

  /** Doubling a number bracketed by consecutive powers of two moves it up one bracket. */
  lemma DoubleBracket(n: nat, h: nat, k: nat)
    requires n == 2 * h || n == 2 * h + 1
    requires k >= 1 && Pow2(k - 1) <= h < Pow2(k)
    ensures Pow2(k) <= n < Pow2(k + 1)
  {
    assert Pow2(k) == 2 * Pow2(k - 1);
    assert Pow2(k + 1) == 2 * Pow2(k);
  }

  /** A positive number lies between the powers of two its bit length brackets. */
  lemma {:induction false} BitLengthBounds(n: nat)
    ensures n == 0 <==> BitLength(n) == 0
    ensures n > 0 ==> Pow2(BitLength(n) - 1) <= n < Pow2(BitLength(n))
  {
    if n > 0 {
      var h := n / 2;
      var b := BitLength(h);
      assert BitLength(n) == b + 1;
      BitLengthBounds(h);
      if h == 0 {
        assert n == 1 && b == 0;
        assert Pow2(1) == 2;
      } else {
        assert n == 2 * h || n == 2 * h + 1;
        DoubleBracket(n, h, b);
      }
    }
  }

  /** The shift `set_details` computes is floor(log2(pagesize)). */
  lemma PageShiftIsLog2(pagesize: nat)
    requires pagesize >= 1
    ensures Pow2(BitLength(pagesize / 2)) <= pagesize < Pow2(BitLength(pagesize / 2) + 1)
  {
    BitLengthBounds(pagesize);
  }

  /** For a page size that is a power of two, the shift is its exponent. */
  lemma {:induction false} PageShiftOfPowerOfTwo(k: nat)
    ensures BitLength(Pow2(k) / 2) == k
  {
    if k > 0 {
      PageShiftOfPowerOfTwo(k - 1);
      assert Pow2(k) / 2 == Pow2(k - 1);
    }
  }

  /**
    The loop `for (n = tc_pagesize; n >>= 1; tc_pagesize_shift++)`: adds to the shift one
    for every halving of the page size that is still non-zero.
  */
  method PagesizeShift(pagesize: nat, shift0: nat) returns (shift: nat)
    ensures shift == shift0 + BitLength(pagesize / 2)
    ensures pagesize >= 1 ==> Pow2(shift - shift0) <= pagesize < Pow2(shift - shift0 + 1)
  {
    shift := shift0;
    var n: nat := pagesize / 2;
    while n != 0
      invariant shift + BitLength(n) == shift0 + BitLength(pagesize / 2)
    {
      shift := shift + 1;
      n := n / 2;
    }
    if pagesize >= 1 {
      PageShiftIsLog2(pagesize);
    }
  }

  // ------------------------------------------------------------ queue length

  /** The `max_queue_len` `set_details` leaves: -1 for a length up to 1024, else the length. */
  function NormalQueueLen(len: int): (r: int)
    ensures r == -1 || r > QUEUE_LEN_FLOOR
    ensures r == -1 <==> len <= QUEUE_LEN_FLOOR
    ensures len > QUEUE_LEN_FLOOR ==> r == len
  {
    if len <= QUEUE_LEN_FLOOR then -1 else len
  }

  /** Normalising twice is normalising once; the default -1 is already normal. */
  lemma NormalQueueLenIdempotent(len: int)
    ensures NormalQueueLen(NormalQueueLen(len)) == NormalQueueLen(len)
    ensures NormalQueueLen(-1) == -1
  {
  }

  // ------------------------------------------------------------ pass-through IP list

  /** The addresses `retrieve_ip_addr` keeps: those of the first `MAX_ALLOWED_IP_NUM` tokens. */
  function PassedIps(list: seq<char>, inetAddr: InetAddr): seq<U32>
  {
    var toks := Split(list, ',');
    var n := Min(|toks|, MAX_ALLOWED_IP_NUM);
    seq(n, j requires 0 <= j < n => inetAddr(toks[j]))
  }

  /** The tokens `retrieve_ip_addr` copies fit its scratch buffer with room for the NUL. */
  predicate TokensFit(list: seq<char>)
  {
    var toks := Split(list, ',');
    forall j :: 0 <= j < Min(|toks|, MAX_ALLOWED_IP_NUM) ==> |toks[j]| < SCRATCH_LEN
  }

  /** One address per comma plus one, but never more than the table holds. */
  lemma PassedIpsCount(list: seq<char>, inetAddr: InetAddr)
    ensures |PassedIps(list, inetAddr)| == Min(Count(list, ',') + 1, MAX_ALLOWED_IP_NUM)
    ensures |PassedIps(list, inetAddr)| >= 1
  {
    SplitLength(list, ',');
  }

  /** A table holds `PassedIps` when it has its length and, slot by slot, its addresses. */
  lemma PassedIpsIs(list: seq<char>, inetAddr: InetAddr, ips: array<U32>, count: nat)
    requires var toks := Split(list, ',');
      && count == Min(|toks|, MAX_ALLOWED_IP_NUM) && count <= ips.Length
      && forall j :: 0 <= j < count ==> ips[j] == inetAddr(toks[j])
    ensures ips[..count] == PassedIps(list, inetAddr)
  {
  }

  /** A list written as addresses joined by commas is read back address by address. */
  lemma PassedIpsOfJoin(ips: seq<seq<char>>, inetAddr: InetAddr)
    requires 1 <= |ips| <= MAX_ALLOWED_IP_NUM
    requires forall k :: 0 <= k < |ips| ==> ',' !in ips[k]
    ensures PassedIps(Join(ips, ','), inetAddr) == seq(|ips|, j requires 0 <= j < |ips| => inetAddr(ips[j]))
  {
    SplitJoin(ips, ',');
  }

  /**
    `strncpy(tmp, p, len)` into the zeroed scratch buffer, for a `len` within the C string
    at `p`: the scratch buffer then holds those `len` characters as a C string.
  */
  method CopyToken(tmp: array<char>, raw: array<char>, p: nat, len: nat, ghost a: seq<char>)
    requires Holds(raw, a) && tmp != raw && len < tmp.Length && p <= |a| && len <= StrLen(a[p..])
    requires forall j :: 0 <= j < tmp.Length ==> tmp[j] == '\0'
    modifies tmp
    ensures p + len <= |a| && CStr(tmp[..]) == a[p..p + len]
  {
    assert raw[..] == a;
    assert raw[p..] == a[p..];
    StrNCpy(tmp, raw, p, len);
    assert tmp[..][..len] == a[p..][..len];
    StrLenAt(tmp[..], len);
  }

  /**
    `strchr(p, ',')` for a walker at token `i` of a comma-separated C string: without a
    comma the token is the rest of the C string and the last one; with one at `sep`, the
    token is the text up to it and the C string after it splits into the tokens left.
  */
  method NextComma(raw: array<char>, p: nat, ghost a: seq<char>, ghost toks: seq<seq<char>>, i: nat)
    returns (sep: int)
    requires Holds(raw, a) && toks == Split(CStr(a), ',') && i < |toks| && p == Offset(toks, i)
    ensures p <= |a|
    ensures sep == -1 ==> i + 1 == |toks| && toks[i] == CStr(a[p..]) && toks[i] == a[p..p + StrLen(a[p..])]
    ensures sep != -1 ==> && i + 1 < |toks| && p <= sep < p + StrLen(a[p..]) && a[sep] == ','
                          && toks[i] == a[p..sep] && sep + 1 == Offset(toks, i + 1)
  {
    OffsetSplit(CStr(a), ',', i);
    assert raw[..] == a;
    CStrAt(a, p);
    assert a[p..] == raw[p..];
    sep := Strchr(raw, p, ',');
    TokenFacts(a, p, ',', toks, i, sep);
  }

  /** The token length `retrieve_ip_addr` derives from `strchr`: up to the comma, or the rest. */
  method TokenEnd(raw: array<char>, p: nat, ghost a: seq<char>, ghost toks: seq<seq<char>>, count: nat)
    returns (split: int, len: nat)
    requires Holds(raw, a) && toks == Split(CStr(a), ',') && count < |toks| && p == Offset(toks, count)
    ensures p <= |a| && len <= StrLen(a[p..]) && p + len <= |a| && toks[count] == a[p..p + len]
    ensures split == -1 ==> count + 1 == |toks|
    ensures split != -1 ==> count + 1 < |toks| && split + 1 == Offset(toks, count + 1)
  {
    split := NextComma(raw, p, a, toks, count);
    if split != -1 {
      len := split - p;
      assert p + len == split;
    } else {
      len := TailLen(raw, p, a);
      assert p + len == p + StrLen(a[p..]);
    }
  }

  /** `strlen(p)` on the C string that starts at `p`. */
  method TailLen(raw: array<char>, p: nat, ghost a: seq<char>) returns (n: nat)
    requires Holds(raw, a) && p <= |a|
    ensures n == StrLen(a[p..])
  {
    assert raw[..] == a;
    assert raw[p..] == a[p..];
    n := StrLen(raw[p..]);
  }

  /**
    The body of `retrieve_ip_addr`'s loop up to the store: finds the end of token `count`
    with `strchr`, copies the token into the scratch buffer and stores its address in slot
    `count`. Returns the position of the comma, or -1 for the last token.
  */
  method StoreToken(raw: array<char>, p: nat, tmp: array<char>, ips: array<U32>, count: nat,
                    inetAddr: InetAddr, ghost a: seq<char>, ghost toks: seq<seq<char>>)
    returns (split: int)
    requires Holds(raw, a) && tmp != raw && tmp.Length == SCRATCH_LEN
    requires forall j :: 0 <= j < tmp.Length ==> tmp[j] == '\0'
    requires count < ips.Length && toks == Split(CStr(a), ',') && count < |toks| && |toks[count]| < SCRATCH_LEN
    requires p == Offset(toks, count)
    modifies tmp, ips
    ensures ips[count] == inetAddr(toks[count])
    ensures forall j :: 0 <= j < ips.Length && j != count ==> ips[j] == old(ips[j])
    ensures split == -1 ==> count + 1 == |toks|
    ensures split != -1 ==> count + 1 < |toks| && split + 1 == Offset(toks, count + 1)
  {
    var len;
    split, len := TokenEnd(raw, p, a, toks, count);
    CopyToken(tmp, raw, p, len, a);
    var address := inetAddr(CStr(tmp[..]));
    ips[count] := address;
  }

  /**
    The loop of `retrieve_ip_addr`: stores the address of each token in turn and stops after
    the last token or once the table is full, clearing the scratch buffer between tokens;
    returns how many addresses it stored.
  */
  method ReadIpList(raw: array<char>, ips: array<U32>, inetAddr: InetAddr) returns (count: nat)
    requires ips.Length == MAX_ALLOWED_IP_NUM && TokensFit(CStr(raw[..]))
    modifies ips
    ensures count <= MAX_ALLOWED_IP_NUM && ips[..count] == PassedIps(CStr(raw[..]), inetAddr)
    ensures forall j :: count <= j < ips.Length ==> ips[j] == old(ips[j])
  {
    ghost var a := raw[..];
    ghost var c := CStr(a);
    ghost var toks := Split(c, ',');
    assert Holds(raw, a);
    var tmp := new char[SCRATCH_LEN](_ => '\0');
    count := 0;
    var p: nat := 0;
    while true
      invariant 0 <= count < MAX_ALLOWED_IP_NUM && count < |toks|
      invariant Holds(raw, a) && p == Offset(toks, count)
      invariant forall j :: 0 <= j < count ==> ips[j] == inetAddr(toks[j])
      invariant forall j :: count <= j < ips.Length ==> ips[j] == old(ips[j])
      invariant forall j :: 0 <= j < tmp.Length ==> tmp[j] == '\0'
      decreases MAX_ALLOWED_IP_NUM - count
    {
      var split := StoreToken(raw, p, tmp, ips, count, inetAddr, a, toks);
      count := count + 1;
      if count == MAX_ALLOWED_IP_NUM {
        break;
      }
      if split == -1 {
        break;
      }
      p := split + 1;
      forall j | 0 <= j < tmp.Length {
        tmp[j] := '\0';
      }
    }
    PassedIpsIs(c, inetAddr, ips, count);
  }

  /**
    Whether `set_details` gives up before the queue stage: advanced mode with neither a
    target list nor pcap, or a user filter too long for the filter buffer.
  */
  predicate FailsEarly(build: Build, hasTargets: bool, userFilter: Option<seq<char>>)
  {
    || (build.advanced && !hasTargets && !build.pcap)
    || (build.advanced && build.pcap && userFilter.Some? && StrLen(userFilter.value) >= MAX_FILTER_LENGH)
  }

  // ------------------------------------------------------------ the settings record

  /** `srv_settings` (with the process-wide `tc_pagesize_shift`). */
  class ServerSettings {
    var port: int
    var hashSize: int
    var boundIp: Option<seq<char>>
    var curCombinedNum: int
    var connProtected: bool
    var maxQueueLen: int
    var doDaemonize: bool
    /** `raw_ip_list`, the `-x` argument; null when absent. */
    var rawIpList: array?<char>
    /** `passed_ips.ips` and `passed_ips.num`. */
    const passedIps: array<U32>
    var passedNum: nat
    /** `raw_tf`, the `-o` argument; null when absent. */
    var rawTf: array?<char>
    /** `targets.num` and `targets.map`. */
    var targetsNum: nat
    var targetsMap: array<IpPort>
    /** `raw_device` and `devices`. */
    var rawDevice: Option<seq<char>>
    var devices: seq<seq<char>>
    /** `user_filter` and the filter buffer. */
    var userFilter: Option<seq<char>>
    const filter: array<char>
    var pagesizeShift: nat

    predicate Valid()
      reads this`passedNum, this`targetsNum, this`targetsMap, this`rawTf, this`rawIpList
    {
      && passedIps.Length == MAX_ALLOWED_IP_NUM && passedNum <= MAX_ALLOWED_IP_NUM
      && filter.Length == MAX_FILTER_LENGH
      && targetsNum == targetsMap.Length
      && rawTf != filter && rawIpList != filter
    }

    /** The pass-through table holds the addresses of the `-x` list (`retrieve_ip_addr`'s result). */
    predicate PassedIpsRead(inetAddr: InetAddr)
      reads this`rawIpList, this`passedNum, rawIpList, passedIps
    {
      && rawIpList != null && passedNum <= passedIps.Length
      && passedIps[..passedNum] == PassedIps(CStr(rawIpList[..]), inetAddr)
    }

    /** The target table holds one parsed pair per token of the `-o` list (`retr_target_addrs`'s result). */
    predicate TargetsRead(inetAddr: InetAddr, atoi: Atoi)
      reads this`rawTf, this`targetsNum, this`targetsMap, rawTf, targetsMap
    {
      && rawTf != null && targetsNum == Count(CStr(rawTf[..]), ',') + 1
      && targetsMap[..] == ParseList(CStr(rawTf[..]), inetAddr, atoi)
    }

    /** The filter buffer holds, as a C string, the filter `extract_filter` builds from the targets. */
    predicate FilterBuilt(udp: bool, clause: ClauseFn)
      reads this`targetsMap, filter, targetsMap
    {
      CStr(filter[..]) == FilterText(udp, targetsMap[..], clause)
    }

    /** The record as the program image holds it before `main` runs: all zero. */
    constructor ()
      ensures Valid()
      ensures port == 0 && hashSize == 0 && boundIp == None && curCombinedNum == 0
      ensures !connProtected && maxQueueLen == 0 && !doDaemonize
      ensures rawIpList == null && passedNum == 0 && rawTf == null && targetsNum == 0
      ensures rawDevice == None && devices == [] && userFilter == None && pagesizeShift == 0
      ensures fresh(passedIps) && fresh(filter) && fresh(targetsMap)
      ensures forall j :: 0 <= j < passedIps.Length ==> passedIps[j] == 0
      ensures forall j :: 0 <= j < filter.Length ==> filter[j] == '\0'
    {
      port := 0;
      hashSize := 0;
      boundIp := None;
      curCombinedNum := 0;
      connProtected := false;
      maxQueueLen := 0;
      doDaemonize := false;
      rawIpList := null;
      passedIps := new U32[MAX_ALLOWED_IP_NUM](_ => 0);
      passedNum := 0;
      rawTf := null;
      targetsNum := 0;
      targetsMap := new IpPort[0];
      rawDevice := None;
      devices := [];
      userFilter := None;
      filter := new char[MAX_FILTER_LENGH](_ => '\0');
      pagesizeShift := 0;
    }

    /** `settings_init`: the defaults, each under the build switch that guards it. */
    method SettingsInit(build: Build)
      modifies this`port, this`hashSize, this`boundIp, this`curCombinedNum
      modifies this`connProtected, this`maxQueueLen
      ensures port == SERVER_PORT && hashSize == DEFAULT_HASH_SIZE && boundIp == None
      ensures curCombinedNum == if build.combined then COMB_MAX_NUM else old(curCombinedNum)
      ensures connProtected == if build.single then false else old(connProtected)
      ensures maxQueueLen == if build.nfqueue then -1 else old(maxQueueLen)
    {
      port := SERVER_PORT;
      hashSize := DEFAULT_HASH_SIZE;
      boundIp := None;
      if build.combined {
        curCombinedNum := COMB_MAX_NUM;
      }
      if build.single {
        connProtected := false;
      }
      if build.nfqueue {
        maxQueueLen := -1;
      }
    }

    /**
      `set_combined_num(num)`: takes `num` only when it lies in `[0, COMB_MAX_NUM)`, so a
      combine count in `[0, COMB_MAX_NUM]` stays in that range.
    */
    method SetCombinedNum(num: int)
      modifies this`curCombinedNum
      ensures curCombinedNum == if 0 <= num < COMB_MAX_NUM then num else old(curCombinedNum)
      ensures old(0 <= curCombinedNum <= COMB_MAX_NUM) ==> 0 <= curCombinedNum <= COMB_MAX_NUM
    {
      if num >= 0 && num < COMB_MAX_NUM {
        curCombinedNum := num;
      }
    }
  
    /** `retrieve_ip_addr`: fills the pass-through table from the `-x` list; always returns 1. */
    method RetrieveIpAddr(inetAddr: InetAddr) returns (r: int)
      requires Valid() && rawIpList != null
      requires TokensFit(CStr(rawIpList[..]))
      modifies passedIps, this`passedNum
      ensures Valid() && r == 1
      ensures PassedIpsRead(inetAddr)
      ensures forall j :: passedNum <= j < passedIps.Length ==> passedIps[j] == old(passedIps[j])
    {
      var count := ReadIpList(rawIpList, passedIps, inetAddr);
      passedNum := count;
      r := 1;
    }

    /**
      `retr_target_addrs`: sizes the target table by the commas of the `-o` list and parses
      each token into its slot, leaving the list as it found it. Returns -1 when there is
      no list.
    */
    method RetrTargetAddrs(inetAddr: InetAddr, atoi: Atoi) returns (r: int)
      requires Valid()
      modifies this`targetsNum, this`targetsMap, rawTf
      ensures Valid()
      ensures old(rawTf) == null ==> r == -1 && targetsNum == old(targetsNum) && targetsMap == old(targetsMap)
      ensures rawTf != null ==>
                && r == 0 && (forall j :: 0 <= j < rawTf.Length ==> rawTf[j] == old(rawTf[j]))
                && fresh(targetsMap) && TargetsRead(inetAddr, atoi)
    {
      if rawTf == null {
        return -1;
      }
      targetsNum := CountTargets(rawTf);
      var pairs := new IpPort[targetsNum](_ => Zero);
      targetsMap := pairs;
      ParseTargets(rawTf, pairs, inetAddr, atoi);
      assert rawTf[..] == old(rawTf[..]);
      r := 0;
    }

    /**
      The device stage of `set_details` under `TC_PCAP`: the name `DEFAULT_DEVICE` is
      dropped (capture on every interface); any other name is expanded by `retrieve_devices`.
    */
    method SelectDevice(retrieveDevices: RetrieveDevices)
      modifies this`rawDevice, this`devices
      ensures old(rawDevice).None? ==> rawDevice == None && devices == old(devices)
      ensures old(rawDevice).Some? && CStr(old(rawDevice).value) == DEFAULT_DEVICE ==>
                rawDevice == None && devices == old(devices)
      ensures old(rawDevice).Some? && CStr(old(rawDevice).value) != DEFAULT_DEVICE ==>
                rawDevice == old(rawDevice) && devices == retrieveDevices(old(rawDevice).value)
    {
      match rawDevice
      case None =>
      case Some(d) =>
        if CStr(d) == DEFAULT_DEVICE {
          rawDevice := None;
        } else {
          devices := retrieveDevices(d);
        }
    }

    /**
      The user-filter stage of `set_details`: a filter of `MAX_FILTER_LENGH` characters or
      more is refused with -1; a shorter one is copied into the filter buffer without its
      NUL, so over a buffer still all NUL it reads back as the user's filter.
    */
    method CopyUserFilter(u: seq<char>) returns (r: int)
      requires Valid()
      modifies filter
      ensures r == 0 || r == -1
      ensures r == -1 <==> StrLen(u) >= MAX_FILTER_LENGH
      ensures r == -1 ==> (forall j :: 0 <= j < filter.Length ==> filter[j] == old(filter[j]))
      ensures r == 0 ==> filter[..StrLen(u)] == CStr(u) && (forall j :: StrLen(u) <= j < filter.Length ==> filter[j] == old(filter[j]))
      ensures r == 0 && (forall j :: 0 <= j < filter.Length ==> old(filter[j]) == '\0') ==>
                CStr(filter[..]) == CStr(u)
    {
      var len := StrLen(u);
      if len >= MAX_FILTER_LENGH {
        return -1;
      }
      forall j | 0 <= j < len {
        filter[j] := u[j];
      }
      assert filter[..len] == CStr(u);
      if forall j :: 0 <= j < filter.Length ==> old(filter[j]) == '\0' {
        StrLenAt(filter[..], len);
      }
      r := 0;
    }

    /** The targets the filter is built from once `set_details` has read the `-o` list. */
    function TargetsAfter(inetAddr: InetAddr, atoi: Atoi): seq<IpPort>
      reads this`rawTf, this`targetsMap, rawTf, targetsMap
    {
      if rawTf != null then ParseList(CStr(rawTf[..]), inetAddr, atoi) else targetsMap[..]
    }

    /**
      `set_details`: the page-size shift, then the `-x` list (basic mode) or the `-o` list,
      the device and the filter (advanced mode), the queue-length sentinel and, when asked
      for, daemonising. `daemonizeOk` is the outcome of `daemonize()`. The result of
      `retr_target_addrs` is not looked at.
    */
    method SetDetails(build: Build, pagesize: nat, inetAddr: InetAddr, atoi: Atoi, clause: ClauseFn,
                      retrieveDevices: RetrieveDevices, daemonizeOk: bool) returns (ret: int)
      requires Valid()
      requires !build.advanced && rawIpList != null ==> TokensFit(CStr(rawIpList[..]))
      requires build.advanced && build.pcap && userFilter == None ==>
                 NoNulClauses(clause)
                     && |FilterText(build.udp, TargetsAfter(inetAddr, atoi), clause)| < MAX_FILTER_LENGH
      modifies this`pagesizeShift, passedIps, this`passedNum, this`targetsNum, this`targetsMap, rawTf
      modifies this`rawDevice, this`devices, filter, this`maxQueueLen
      ensures Valid()
      ensures pagesizeShift == old(pagesizeShift) + BitLength(pagesize / 2)
      ensures ret == 0 || ret == -1
      ensures ret == -1 <==> FailsEarly(build, rawTf != null, userFilter) || (doDaemonize && !daemonizeOk)
      // the pass-through list
      ensures !build.advanced && rawIpList != null ==>
                PassedIpsRead(inetAddr) && forall j :: passedNum <= j < passedIps.Length ==> passedIps[j] == old(passedIps[j])
      ensures build.advanced || rawIpList == null ==>
                passedNum == old(passedNum) && (forall j :: 0 <= j < passedIps.Length ==> passedIps[j] == old(passedIps[j]))
      // the targets
      ensures rawTf != null ==> forall j :: 0 <= j < rawTf.Length ==> rawTf[j] == old(rawTf[j])
      ensures build.advanced && rawTf != null ==> TargetsRead(inetAddr, atoi)
      ensures !(build.advanced && rawTf != null) ==>
                targetsNum == old(targetsNum) && targetsMap == old(targetsMap)
      // the device
      ensures build.advanced && build.pcap && old(rawDevice).Some? ==>
                if CStr(old(rawDevice).value) == DEFAULT_DEVICE
                    then rawDevice == None && devices == old(devices)
                    else rawDevice == old(rawDevice) && devices == retrieveDevices(old(rawDevice).value)
      ensures !(build.advanced && build.pcap && old(rawDevice).Some?) ==>
                rawDevice == old(rawDevice) && devices == old(devices)
      // the filter
      ensures build.advanced && build.pcap && userFilter.Some? && !FailsEarly(build, rawTf != null, userFilter) ==>
                && filter[..StrLen(userFilter.value)] == CStr(userFilter.value)
                    && (forall j :: StrLen(userFilter.value) <= j < filter.Length ==> filter[j] == old(filter[j]))
      ensures build.advanced && build.pcap && userFilter == None ==> FilterBuilt(build.udp, clause)
      ensures build.advanced && build.pcap && userFilter == None ==>
                forall j :: |FilterText(build.udp, targetsMap[..], clause)| < j < filter.Length ==> filter[j] == old(filter[j])
      ensures !(build.advanced && build.pcap) || FailsEarly(build, rawTf != null, userFilter) ==> (forall j :: 0 <= j < filter.Length ==> filter[j] == old(filter[j]))
      // the queue length
      ensures maxQueueLen == if build.nfqueue && !FailsEarly(build, rawTf != null, userFilter)
                             then NormalQueueLen(old(maxQueueLen)) else old(maxQueueLen)
    {
      pagesizeShift := PagesizeShift(pagesize, pagesizeShift);
      // The queue length is set before the list stages rather than after them: they neither
      // read nor write it, and they fail exactly when `FailsEarly` holds, so the record ends
      // up as the source's order leaves it.
      maxQueueLen := if build.nfqueue && !FailsEarly(build, rawTf != null, userFilter)
                     then NormalQueueLen(maxQueueLen) else maxQueueLen;
      ret := ListDetails(build, inetAddr, atoi, clause, retrieveDevices);
      if ret == 0 && doDaemonize && !daemonizeOk {
        ret := -1;
      }
    }

    /**
      The list stages of `set_details`: the `-x` list without `TC_ADVANCED`; with it the
      `-o` list, then under `TC_PCAP` the device and the filter. -1 on the early failures.
    */
    method ListDetails(build: Build, inetAddr: InetAddr, atoi: Atoi, clause: ClauseFn,
                       retrieveDevices: RetrieveDevices) returns (ret: int)
      requires Valid()
      requires !build.advanced && rawIpList != null ==> TokensFit(CStr(rawIpList[..]))
      requires build.advanced && build.pcap && userFilter == None ==>
                 NoNulClauses(clause)
                     && |FilterText(build.udp, TargetsAfter(inetAddr, atoi), clause)| < MAX_FILTER_LENGH
      modifies passedIps, this`passedNum, this`targetsNum, this`targetsMap, rawTf
      modifies this`rawDevice, this`devices, filter
      ensures Valid()
      ensures ret == 0 || ret == -1
      ensures ret == -1 <==> FailsEarly(build, rawTf != null, userFilter)
      // the pass-through list
      ensures !build.advanced && rawIpList != null ==>
                PassedIpsRead(inetAddr) && forall j :: passedNum <= j < passedIps.Length ==> passedIps[j] == old(passedIps[j])
      ensures build.advanced || rawIpList == null ==>
                passedNum == old(passedNum) && (forall j :: 0 <= j < passedIps.Length ==> passedIps[j] == old(passedIps[j]))
      // the targets
      ensures rawTf != null ==> forall j :: 0 <= j < rawTf.Length ==> rawTf[j] == old(rawTf[j])
      ensures build.advanced && rawTf != null ==> TargetsRead(inetAddr, atoi)
      ensures !(build.advanced && rawTf != null) ==>
                targetsNum == old(targetsNum) && targetsMap == old(targetsMap)
      // the device
      ensures build.advanced && build.pcap && old(rawDevice).Some? ==>
                if CStr(old(rawDevice).value) == DEFAULT_DEVICE
                    then rawDevice == None && devices == old(devices)
                    else rawDevice == old(rawDevice) && devices == retrieveDevices(old(rawDevice).value)
      ensures !(build.advanced && build.pcap && old(rawDevice).Some?) ==>
                rawDevice == old(rawDevice) && devices == old(devices)
      // the filter
      ensures build.advanced && build.pcap && userFilter.Some? && !FailsEarly(build, rawTf != null, userFilter) ==>
                && filter[..StrLen(userFilter.value)] == CStr(userFilter.value)
                    && (forall j :: StrLen(userFilter.value) <= j < filter.Length ==> filter[j] == old(filter[j]))
      ensures build.advanced && build.pcap && userFilter == None ==> FilterBuilt(build.udp, clause)
      ensures build.advanced && build.pcap && userFilter == None ==>
                forall j :: |FilterText(build.udp, targetsMap[..], clause)| < j < filter.Length ==> filter[j] == old(filter[j])
      ensures !(build.advanced && build.pcap) || FailsEarly(build, rawTf != null, userFilter) ==> (forall j :: 0 <= j < filter.Length ==> filter[j] == old(filter[j]))
    {
      if !build.advanced {
        if rawIpList != null {
          var _ := RetrieveIpAddr(inetAddr);
        }
        ret := 0;
      } else {
        ret := AdvancedDetails(build, inetAddr, atoi, clause, retrieveDevices);
      }
    }

    /** The `TC_ADVANCED` part of `set_details`: targets, then (under `TC_PCAP`) device and filter. */
    method AdvancedDetails(build: Build, inetAddr: InetAddr, atoi: Atoi, clause: ClauseFn,
                           retrieveDevices: RetrieveDevices) returns (ret: int)
      requires Valid() && build.advanced
      requires build.pcap && userFilter == None ==>
                 NoNulClauses(clause)
                     && |FilterText(build.udp, TargetsAfter(inetAddr, atoi), clause)| < MAX_FILTER_LENGH
      modifies this`targetsNum, this`targetsMap, rawTf, this`rawDevice, this`devices, filter
      ensures Valid()
      ensures ret == 0 || ret == -1
      ensures ret == -1 <==> FailsEarly(build, rawTf != null, userFilter)
      ensures rawTf != null ==>
                (forall j :: 0 <= j < rawTf.Length ==> rawTf[j] == old(rawTf[j])) && TargetsRead(inetAddr, atoi)
      ensures rawTf == null ==> targetsNum == old(targetsNum) && targetsMap == old(targetsMap)
      ensures build.pcap && old(rawDevice).Some? ==>
                if CStr(old(rawDevice).value) == DEFAULT_DEVICE
                    then rawDevice == None && devices == old(devices)
                    else rawDevice == old(rawDevice) && devices == retrieveDevices(old(rawDevice).value)
      ensures !(build.pcap && old(rawDevice).Some?) ==> rawDevice == old(rawDevice) && devices == old(devices)
      ensures build.pcap && userFilter.Some? && !FailsEarly(build, rawTf != null, userFilter) ==>
                && filter[..StrLen(userFilter.value)] == CStr(userFilter.value)
                    && (forall j :: StrLen(userFilter.value) <= j < filter.Length ==> filter[j] == old(filter[j]))
      ensures build.pcap && userFilter == None ==> FilterBuilt(build.udp, clause)
      ensures build.pcap && userFilter == None ==>
                forall j :: |FilterText(build.udp, targetsMap[..], clause)| < j < filter.Length ==> filter[j] == old(filter[j])
      ensures !build.pcap || FailsEarly(build, rawTf != null, userFilter) ==> (forall j :: 0 <= j < filter.Length ==> filter[j] == old(filter[j]))
    {
      if rawTf != null {
        var _ := RetrTargetAddrs(inetAddr, atoi);
        assert rawTf[..] == old(rawTf[..]);
      } else if !build.pcap {
        return -1;
      }
      ret := 0;
      if build.pcap {
        SelectDevice(retrieveDevices);
        if userFilter.Some? {
          ret := CopyUserFilter(userFilter.value);
        } else {
          var _ := ExtractFilter(filter, targetsMap[..], build.udp, clause);
        }
      }
    }
  }

  /** The counting loop of `retr_target_addrs`: one target per comma of the C string, plus one. */
  method CountTargets(raw: array<char>) returns (num: nat)
    ensures num == Count(CStr(raw[..]), ',') + 1
  {
    ghost var a := raw[..];
    num := 1;
    var p: nat := 0;
    while p < raw.Length && raw[p] != '\0'
      invariant p <= StrLen(a)
      invariant num == 1 + Count(a[..p], ',')
    {
      if raw[p] == ',' {
        num := num + 1;
      }
      CountSnoc(a[..p], a[p], ',');
      assert a[..p + 1] == a[..p] + [a[p]];
      p := p + 1;
    }
    assert p == StrLen(a);
  }

  /**
    One pass of the parsing loop of `retr_target_addrs`: finds the end of token `i` with
    `strchr`; a comma is overwritten with NUL while `parse_target` reads the token and then
    written back. Returns the position of the comma, or -1 for the last token.
  */
  method ParseOne(raw: array<char>, p: nat, pairs: array<IpPort>, i: nat, inetAddr: InetAddr, atoi: Atoi,
                  ghost a: seq<char>, ghost toks: seq<seq<char>>) returns (sep: int)
    requires Holds(raw, a) && toks == Split(CStr(a), ',') && i < pairs.Length && i < |toks|
    requires p == Offset(toks, i)
    modifies raw, pairs
    ensures Holds(raw, a)
    ensures pairs[i] == ParseToken(toks[i], inetAddr, atoi)
    ensures forall j :: 0 <= j < pairs.Length && j != i ==> pairs[j] == old(pairs[j])
    ensures sep == -1 ==> i + 1 == |toks|
    ensures sep != -1 ==> i + 1 < |toks| && sep + 1 == Offset(toks, i + 1)
  {
    sep := NextComma(raw, p, a, toks, i);
    var pair := ParseCut(raw, p, sep, inetAddr, atoi, a, toks[i]);
    pairs[i] := pair;
  }

  /**
    `parse_target` on the token at `p`, with the comma that ends it (if any) cut to NUL for
    the call and written back after it.
  */
  method ParseCut(raw: array<char>, p: nat, sep: int, inetAddr: InetAddr, atoi: Atoi,
                  ghost a: seq<char>, ghost tok: seq<char>) returns (pair: IpPort)
    requires Holds(raw, a) && p <= |a|
    requires sep == -1 ==> tok == CStr(a[p..])
    requires sep != -1 ==> p <= sep < p + StrLen(a[p..]) && a[sep] == ',' && tok == a[p..sep]
    modifies raw
    ensures Holds(raw, a)
    ensures pair == ParseToken(tok, inetAddr, atoi)
  {
    assert raw[..] == a;
    if sep == -1 {
      assert raw[p..] == a[p..];
      pair := ParseTarget(raw, p, inetAddr, atoi);
    } else {
      ghost var k := sep - p;
      raw[sep] := '\0';
      assert CStr(raw[p..]) == tok by {
        assert raw[p..] == a[p..][k := '\0'];
        CStrCut(a[p..], k);
        assert a[p..][..k] == a[p..sep];
      }
      pair := ParseTarget(raw, p, inetAddr, atoi);
      raw[sep] := ',';
      assert raw[..] == a;
    }
  }

  /**
    The parsing loop of `retr_target_addrs`: parses token after token of the C string into
    consecutive slots until the last token.
  */
  method ParseTargets(raw: array<char>, pairs: array<IpPort>, inetAddr: InetAddr, atoi: Atoi)
    requires pairs.Length == Count(CStr(raw[..]), ',') + 1
    modifies raw, pairs
    ensures Holds(raw, old(raw[..]))
    ensures pairs[..] == ParseList(CStr(old(raw[..])), inetAddr, atoi)
  {
    ghost var a := raw[..];
    ghost var c := CStr(a);
    ghost var toks := Split(c, ',');
    SplitLength(c, ',');
    assert Holds(raw, a);
    var p: nat := 0;
    var i: nat := 0;
    while true
      invariant 0 <= i < |toks| == pairs.Length
      invariant Holds(raw, a) && p == Offset(toks, i)
      invariant forall j :: 0 <= j < i ==> pairs[j] == ParseToken(toks[j], inetAddr, atoi)
      decreases |toks| - i
    {
      var sep := ParseOne(raw, p, pairs, i, inetAddr, atoi, a, toks);
      i := i + 1;
      if sep == -1 {
        break;
      }
      p := sep + 1;
    }
    ParseListIs(c, inetAddr, atoi, pairs);
  }

  /** A table holds `ParseList` when it has one slot per token and, slot by slot, its parse. */
  lemma ParseListIs(list: seq<char>, inetAddr: InetAddr, atoi: Atoi, pairs: array<IpPort>)
    requires var toks := Split(list, ',');
      && pairs.Length == |toks|
      && forall j :: 0 <= j < |toks| ==> pairs[j] == ParseToken(toks[j], inetAddr, atoi)
    ensures pairs[..] == ParseList(list, inetAddr, atoi)
  {
  }
}
