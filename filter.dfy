/**
  The capture filter the link-capture backend is opened with, built from the target list
  (`extract_filter`): `"tcp and ("` (or `"udp and ("`), one clause per usable target, and
  `")"`. `construct_filter`, which renders one clause, is not part of this model; it is a
  parameter.
*/
module FilterBuilder {
  import opened Net
  import opened CStrings
  import opened Targets

  /** `MAX_FILTER_ITEMS`: the most target clauses a filter holds. */
  const MAX_FILTER_ITEMS: nat := 32

  /** `construct_filter(SRC_DIRECTION, ip, port, pt)`: the text of one target's clause. */
  type ClauseFn = (U32, U16) -> seq<char>

  /** Every clause `construct_filter` writes is a C string: no NUL inside it. */
  predicate NoNulClauses(clause: ClauseFn)
  {
    forall ip, port :: '\0' !in clause(ip, port)
  }

  /** A target whose IP and port are both 0 contributes no clause. */
  predicate IsWildcard(t: IpPort)
  {
    t.port == 0 && t.ip == 0
  }

  /** The opening of the filter, by transport protocol. */
  function Head(udp: bool): seq<char>
  {
    if udp then "udp and (" else "tcp and ("
  }

  function Min(a: nat, b: nat): nat
  {
    if a < b then a else b
  }

  /** The clause text written so far and the clause counter `cnt`. */
  datatype Emitted = Emitted(text: seq<char>, count: nat)

  /**
    The state of `extract_filter`'s loop after it has looked at `ts[..n]`, as written: a
    usable target below the cap adds `" or "` when its INDEX is positive, then its clause.
    Once the cap is reached nothing is added any more (the loop breaks at the next usable
    target and skips the wildcards before it).
  */
  function Emit(ts: seq<IpPort>, n: nat, clause: ClauseFn): Emitted
    requires n <= |ts|
  {
    if n == 0 then Emitted([], 0)
    else
      var e := Emit(ts, n - 1, clause);
      var t := ts[n - 1];
      if IsWildcard(t) || e.count >= MAX_FILTER_ITEMS then e
      else Emitted(e.text + (if n - 1 > 0 then " or " else "") + clause(t.ip, t.port), e.count + 1)
  }

  /** The whole filter `extract_filter` writes. */
  function FilterText(udp: bool, ts: seq<IpPort>, clause: ClauseFn): seq<char>
  {
    Head(udp) + Emit(ts, |ts|, clause).text + ")"
  }

  /**
    The same loop with the separator chosen by the clause counter instead: `" or "` goes
    before every clause but the first one emitted.
  */
  function EmitFixed(ts: seq<IpPort>, n: nat, clause: ClauseFn): Emitted
    requires n <= |ts|
  {
    if n == 0 then Emitted([], 0)
    else
      var e := EmitFixed(ts, n - 1, clause);
      var t := ts[n - 1];
      if IsWildcard(t) || e.count >= MAX_FILTER_ITEMS then e
      else Emitted(e.text + (if e.count > 0 then " or " else "") + clause(t.ip, t.port), e.count + 1)
  }

  /** The filter the corrected loop writes. */
  function FixedFilterText(udp: bool, ts: seq<IpPort>, clause: ClauseFn): seq<char>
  {
    Head(udp) + EmitFixed(ts, |ts|, clause).text + ")"
  }

  // ------------------------------------------------------------ reference definition

  /** The targets that are not wildcards, in order. */
  function Usable(ts: seq<IpPort>): seq<IpPort>
  {
    if ts == [] then []
    else Usable(ts[..|ts| - 1]) + (if IsWildcard(ts[|ts| - 1]) then [] else [ts[|ts| - 1]])
  }

  /** The targets that get a clause: the first `MAX_FILTER_ITEMS` usable ones. */
  function Kept(ts: seq<IpPort>): seq<IpPort>
  {
    var u := Usable(ts);
    u[..Min(|u|, MAX_FILTER_ITEMS)]
  }

  /** The clause of each target, in order. */
  function Clauses(us: seq<IpPort>, clause: ClauseFn): seq<seq<char>>
  {
    if us == [] then []
    else Clauses(us[..|us| - 1], clause) + [clause(us[|us| - 1].ip, us[|us| - 1].port)]
  }

  /** Texts joined with `" or "` between consecutive ones. */
  function JoinOr(xs: seq<seq<char>>): seq<char>
  {
    if xs == [] then []
    else if |xs| == 1 then xs[0]
    else JoinOr(xs[..|xs| - 1]) + " or " + xs[|xs| - 1]
  }

  lemma UsableStep(ts: seq<IpPort>, n: nat)
    requires 0 < n <= |ts|
    ensures Usable(ts[..n]) == Usable(ts[..n - 1]) + (if IsWildcard(ts[n - 1]) then [] else [ts[n - 1]])
  {
    assert ts[..n][..n - 1] == ts[..n - 1];
  }

  lemma ClausesSnoc(us: seq<IpPort>, t: IpPort, clause: ClauseFn)
    ensures Clauses(us + [t], clause) == Clauses(us, clause) + [clause(t.ip, t.port)]
  {
    assert (us + [t])[..|us|] == us;
  }

  lemma {:induction false} ClausesLength(us: seq<IpPort>, clause: ClauseFn)
    ensures |Clauses(us, clause)| == |us|
  {
    if us != [] {
      ClausesLength(us[..|us| - 1], clause);
    }
  }

  lemma JoinOrSnoc(xs: seq<seq<char>>, x: seq<char>)
    ensures JoinOr(xs + [x]) == if xs == [] then x else JoinOr(xs) + " or " + x
  {
    assert (xs + [x])[..|xs|] == xs;
  }

  /** How the kept targets grow by one target. */
  lemma KeptStep(ts: seq<IpPort>, n: nat)
    requires 0 < n <= |ts|
    ensures Kept(ts[..n]) ==
      if IsWildcard(ts[n - 1]) || |Kept(ts[..n - 1])| >= MAX_FILTER_ITEMS then Kept(ts[..n - 1])
      else Kept(ts[..n - 1]) + [ts[n - 1]]
  {
    UsableStep(ts, n);
    var t := ts[n - 1];
    var u := Usable(ts[..n - 1]);
    if !IsWildcard(t) {
      if |u| >= MAX_FILTER_ITEMS {
        assert (u + [t])[..MAX_FILTER_ITEMS] == u[..MAX_FILTER_ITEMS];
      } else {
        assert (u + [t])[..|u| + 1] == u + [t];
      }
    }
  }

  /**
    The corrected loop emits exactly the clauses of the kept targets, joined with `" or "`,
    and counts them.
  */
  lemma {:induction false} EmitFixedIsJoin(ts: seq<IpPort>, n: nat, clause: ClauseFn)
    requires n <= |ts|
    ensures EmitFixed(ts, n, clause).count == |Kept(ts[..n])|
    ensures EmitFixed(ts, n, clause).text == JoinOr(Clauses(Kept(ts[..n]), clause))
  {
    if n == 0 {
      assert ts[..0] == [];
    } else {
      EmitFixedIsJoin(ts, n - 1, clause);
      KeptStep(ts, n);
      var t := ts[n - 1];
      var k := Kept(ts[..n - 1]);
      if !IsWildcard(t) && |k| < MAX_FILTER_ITEMS {
        ClausesLength(k, clause);
        ClausesSnoc(k, t, clause);
        JoinOrSnoc(Clauses(k, clause), clause(t.ip, t.port));
      }
    }
  }

  /** Both loops count the same clauses; only the separators can differ. */
  lemma {:induction false} EmitCount(ts: seq<IpPort>, n: nat, clause: ClauseFn)
    requires n <= |ts|
    ensures Emit(ts, n, clause).count == EmitFixed(ts, n, clause).count == |Kept(ts[..n])|
    ensures Emit(ts, n, clause).count == Min(|Usable(ts[..n])|, MAX_FILTER_ITEMS)
  {
    EmitFixedIsJoin(ts, n, clause);
    if n > 0 {
      EmitCount(ts, n - 1, clause);
    }
  }

  /** Every clause is one of a non-wildcard target, and there are at most `MAX_FILTER_ITEMS`. */
  lemma {:induction false} KeptTargets(ts: seq<IpPort>)
    ensures |Kept(ts)| <= MAX_FILTER_ITEMS
    ensures forall t :: t in Kept(ts) ==> t in ts && !IsWildcard(t)
  {
    if ts != [] {
      KeptTargets(ts[..|ts| - 1]);
      UsableTargets(ts);
    }
  }

  lemma {:induction false} UsableTargets(ts: seq<IpPort>)
    ensures forall t :: t in Usable(ts) ==> t in ts && !IsWildcard(t)
  {
    if ts != [] {
      UsableTargets(ts[..|ts| - 1]);
      assert forall t :: t in ts[..|ts| - 1] ==> t in ts;
    }
  }

  /**
    When the first target is usable (or there is none), the loop as written builds the same
    text as the corrected one.
  */
  lemma {:induction false} EmitAgreesWhenFirstUsable(ts: seq<IpPort>, n: nat, clause: ClauseFn)
    requires n <= |ts|
    requires ts != [] ==> !IsWildcard(ts[0])
    ensures Emit(ts, n, clause) == EmitFixed(ts, n, clause)
    ensures n > 0 ==> Emit(ts, n, clause).count > 0
  {
    if n > 0 {
      EmitAgreesWhenFirstUsable(ts, n - 1, clause);
    }
  }

  /** The filter the source builds when its first target is usable is a proper join. */
  lemma FilterTextWhenFirstUsable(udp: bool, ts: seq<IpPort>, clause: ClauseFn)
    requires ts != [] ==> !IsWildcard(ts[0])
    ensures FilterText(udp, ts, clause) == Head(udp) + JoinOr(Clauses(Kept(ts), clause)) + ")"
  {
    EmitAgreesWhenFirstUsable(ts, |ts|, clause);
    EmitFixedIsJoin(ts, |ts|, clause);
    assert ts[..|ts|] == ts;
  }

  /** The corrected filter is always the proper join of the kept targets' clauses. */
  lemma FixedFilterTextIsJoin(udp: bool, ts: seq<IpPort>, clause: ClauseFn)
    ensures FixedFilterText(udp, ts, clause) == Head(udp) + JoinOr(Clauses(Kept(ts), clause)) + ")"
  {
    EmitFixedIsJoin(ts, |ts|, clause);
    assert ts[..|ts|] == ts;
  }

  /**
    The loop as written against the corrected one: the same clauses are counted, and the
    text differs at most by one `" or "` in front, there exactly when the first target is a
    wildcard and some clause follows it.
  */
  lemma {:induction false} EmitVsFixed(ts: seq<IpPort>, n: nat, clause: ClauseFn)
    requires n <= |ts|
    ensures Emit(ts, n, clause).count == EmitFixed(ts, n, clause).count
    ensures Emit(ts, n, clause).text ==
      (if EmitFixed(ts, n, clause).count > 0 && ts != [] && IsWildcard(ts[0]) then " or " else "")
        + EmitFixed(ts, n, clause).text
  {
    if n > 0 {
      EmitVsFixed(ts, n - 1, clause);
      var t := ts[n - 1];
      var f := EmitFixed(ts, n - 1, clause);
      if !IsWildcard(t) && f.count < MAX_FILTER_ITEMS {
        if f.count == 0 {
          EmitCountZero(ts, n - 1, clause);
          if n - 1 > 0 {
            EmitPrefix(ts, 1, n - 1, clause);
          }
        }
        EmitVsFixedStep(ts, n, clause);
      }
    }
  }

  /** The step of `EmitVsFixed` that adds a clause. */
  lemma EmitVsFixedStep(ts: seq<IpPort>, n: nat, clause: ClauseFn)
    requires 0 < n <= |ts|
    requires !IsWildcard(ts[n - 1]) && EmitFixed(ts, n - 1, clause).count < MAX_FILTER_ITEMS
    requires Emit(ts, n - 1, clause).count == EmitFixed(ts, n - 1, clause).count
    requires Emit(ts, n - 1, clause).text ==
      (if EmitFixed(ts, n - 1, clause).count > 0 && IsWildcard(ts[0]) then " or " else "")
        + EmitFixed(ts, n - 1, clause).text
    requires EmitFixed(ts, n - 1, clause).count == 0 ==>
      EmitFixed(ts, n - 1, clause).text == [] && (n - 1 > 0 <==> IsWildcard(ts[0]))
    ensures Emit(ts, n, clause).count == EmitFixed(ts, n, clause).count
    ensures Emit(ts, n, clause).text ==
      (if IsWildcard(ts[0]) then " or " else "") + EmitFixed(ts, n, clause).text
  {
    var e := Emit(ts, n - 1, clause);
    var f := EmitFixed(ts, n - 1, clause);
    var c := clause(ts[n - 1].ip, ts[n - 1].port);
    if f.count > 0 {
      var pre := if IsWildcard(ts[0]) then " or " else "";
      assert e.text + " or " + c == pre + (f.text + " or " + c);
    }
  }

  /**
    The filter the source builds, for every target list: the proper join of the kept
    targets' clauses, with one stray `" or "` in front exactly when the list starts with a
    wildcard and some target is usable.
  */
  lemma FilterTextIsJoin(udp: bool, ts: seq<IpPort>, clause: ClauseFn)
    ensures FilterText(udp, ts, clause) ==
      Head(udp) + (if Usable(ts) != [] && IsWildcard(ts[0]) then " or " else "")
        + JoinOr(Clauses(Kept(ts), clause)) + ")"
  {
    EmitVsFixed(ts, |ts|, clause);
    EmitFixedIsJoin(ts, |ts|, clause);
    EmitCount(ts, |ts|, clause);
    assert ts[..|ts|] == ts;
    if Usable(ts) != [] {
      assert ts != [];
    }
  }

  /** Text only grows as the loop advances, and so does the counter. */
  lemma {:induction false} EmitPrefix(ts: seq<IpPort>, m: nat, n: nat, clause: ClauseFn)
    requires m <= n <= |ts|
    ensures Emit(ts, m, clause).text <= Emit(ts, n, clause).text
    ensures Emit(ts, m, clause).count <= Emit(ts, n, clause).count
    decreases n
  {
    if m < n {
      EmitPrefix(ts, m, n - 1, clause);
      var a := Emit(ts, m, clause).text;
      var b := Emit(ts, n - 1, clause).text;
      var c := Emit(ts, n, clause).text;
      assert b <= c;
      assert c[..|a|] == b[..|a|];
    }
  }

  /** Once the counter has reached the cap, later targets change nothing (the loop's `break`). */
  lemma {:induction false} EmitSaturated(ts: seq<IpPort>, i: nat, n: nat, clause: ClauseFn)
    requires i <= n <= |ts|
    requires Emit(ts, i, clause).count >= MAX_FILTER_ITEMS
    ensures Emit(ts, n, clause) == Emit(ts, i, clause)
    decreases n
  {
    if i < n {
      EmitSaturated(ts, i, n - 1, clause);
    }
  }

  /** Clauses that are C strings make a filter that is one. */
  lemma {:induction false} EmitNoNul(ts: seq<IpPort>, n: nat, clause: ClauseFn)
    requires n <= |ts|
    requires NoNulClauses(clause)
    ensures '\0' !in Emit(ts, n, clause).text
  {
    if n > 0 {
      EmitNoNul(ts, n - 1, clause);
    }
  }

  /** Clauses that are C strings make a whole filter that is one. */
  lemma FilterTextNoNul(udp: bool, ts: seq<IpPort>, clause: ClauseFn)
    requires NoNulClauses(clause)
    ensures '\0' !in FilterText(udp, ts, clause)
  {
    EmitNoNul(ts, |ts|, clause);
  }

  /**
    No usable target: the filter is `"tcp and ()"` and the counter is 0, which
    `extract_filter` only reports as a warning.
  */
  lemma NoUsableTarget(udp: bool, ts: seq<IpPort>, clause: ClauseFn)
    ensures Emit(ts, |ts|, clause).count == 0 <==> Usable(ts) == []
    ensures Usable(ts) == [] ==> FilterText(udp, ts, clause) == Head(udp) + ")"
  {
    EmitCount(ts, |ts|, clause);
    EmitCountZero(ts, |ts|, clause);
    assert ts[..|ts|] == ts;
  }

  /** No clause counted means no text written. */
  lemma {:induction false} EmitCountZero(ts: seq<IpPort>, n: nat, clause: ClauseFn)
    requires n <= |ts|
    ensures Emit(ts, n, clause).count == 0 ==> Emit(ts, n, clause).text == []
  {
    if n > 0 {
      EmitCountZero(ts, n - 1, clause);
    }
  }

  /** Two usable targets give two clauses joined by one `" or "` inside one pair of parentheses. */
  lemma TwoTargets(udp: bool, a: IpPort, b: IpPort, clause: ClauseFn)
    requires !IsWildcard(a) && !IsWildcard(b)
    ensures FilterText(udp, [a, b], clause)
      == Head(udp) + clause(a.ip, a.port) + " or " + clause(b.ip, b.port) + ")"
  {
    var ts := [a, b];
    assert Emit(ts, 1, clause).text == clause(a.ip, a.port);
  }

  /**
    The defect as written: when every target before the first usable one is a wildcard and
    there is at least one, the first clause is preceded by `" or "`, so the filter begins
    `"tcp and ( or "`.
  */
  lemma {:induction false} LeadingOr(udp: bool, ts: seq<IpPort>, j: nat, clause: ClauseFn)
    requires 0 < j < |ts|
    requires forall i :: 0 <= i < j ==> IsWildcard(ts[i])
    requires !IsWildcard(ts[j])
    ensures Head(udp) + " or " <= FilterText(udp, ts, clause)
  {
    AllWildcards(ts, j, clause);
    var e := Emit(ts, j + 1, clause).text;
    assert e == " or " + clause(ts[j].ip, ts[j].port);
    EmitPrefix(ts, j + 1, |ts|, clause);
    var f := FilterText(udp, ts, clause);
    var all := Emit(ts, |ts|, clause).text;
    assert all[..4] == " or ";
    assert f[..|Head(udp)| + 4] == Head(udp) + all[..4];
  }

  lemma {:induction false} AllWildcards(ts: seq<IpPort>, j: nat, clause: ClauseFn)
    requires j <= |ts|
    requires forall i :: 0 <= i < j ==> IsWildcard(ts[i])
    ensures Emit(ts, j, clause) == Emitted([], 0)
  {
    if j > 0 {
      AllWildcards(ts, j - 1, clause);
    }
  }

  /** A concrete instance: a wildcard entry followed by port 80 on any address. */
  lemma LeadingOrExample(clause: ClauseFn)
    ensures var ts := [Zero, IpPort(0, Htons(80))];
      && FilterText(false, ts, clause) == "tcp and ( or " + clause(0, Htons(80)) + ")"
      && FixedFilterText(false, ts, clause) == "tcp and (" + clause(0, Htons(80)) + ")"
  {
    var ts := [Zero, IpPort(0, Htons(80))];
    assert Emit(ts, 1, clause) == Emitted([], 0);
    assert EmitFixed(ts, 1, clause) == Emitted([], 0);
  }

  // ------------------------------------------------------------ the loop itself

  /**
    One pass of the loop body for a usable target below the cap: `" or "` when the index
    `i` is positive (`pt` is then moved past it with `strlen`), then the clause, which
    `construct_filter` writes and returns the end of.
  */
  method AppendClause(buf: array<char>, pt: nat, i: nat, c: seq<char>) returns (end: nat)
    requires pt < buf.Length && buf[pt] == '\0'
    requires pt + (if i > 0 then 4 else 0) + |c| < buf.Length
    modifies buf
    ensures end == pt + (if i > 0 then 4 else 0) + |c|
    ensures buf[..end] == old(buf[..pt]) + ((if i > 0 then " or " else "") + c)
    ensures buf[end] == '\0'
    ensures forall j :: end < j < buf.Length ==> buf[j] == old(buf[j])
  {
    var p := pt;
    if i > 0 {
      StrCpy(buf, p, " or ");
    } else {
      StrLenAt(buf[p..], 0);
    }
    p := p + StrLen(buf[p..]);
    StrCpy(buf, p, c);
    end := p + |c|;
  }

  /** A wildcard target, or any target once the cap is reached, leaves the state as it is. */
  lemma EmitSkip(ts: seq<IpPort>, i: nat, clause: ClauseFn)
    requires i < |ts|
    requires IsWildcard(ts[i]) || Emit(ts, i, clause).count >= MAX_FILTER_ITEMS
    ensures Emit(ts, i + 1, clause) == Emit(ts, i, clause)
  {
  }

  /** A usable target below the cap adds its clause, after `" or "` when its index is positive. */
  lemma EmitAppend(ts: seq<IpPort>, i: nat, clause: ClauseFn)
    requires i < |ts|
    requires !IsWildcard(ts[i]) && Emit(ts, i, clause).count < MAX_FILTER_ITEMS
    ensures Emit(ts, i + 1, clause).text
      == Emit(ts, i, clause).text + ((if i > 0 then " or " else "") + clause(ts[i].ip, ts[i].port))
    ensures Emit(ts, i + 1, clause).count == Emit(ts, i, clause).count + 1
  {
  }

  lemma AppendAssoc(a: seq<char>, b: seq<char>, c: seq<char>)
    ensures (a + b) + c == a + (b + c)
  {
  }

  /**
    The loop of `extract_filter`: from `pt0`, where the opening `head` ends, appends the
    clauses of the usable targets below the cap and returns where the text ends and the
    clause counter `cnt`.
  */
  method EmitTargets(buf: array<char>, ts: seq<IpPort>, clause: ClauseFn, pt0: nat, ghost last: nat)
    returns (pt: nat, cnt: nat)
    requires pt0 < buf.Length && buf[pt0] == '\0'
    requires pt0 + |Emit(ts, |ts|, clause).text| < last <= buf.Length
    modifies buf
    ensures cnt == Emit(ts, |ts|, clause).count
    ensures pt == pt0 + |Emit(ts, |ts|, clause).text|
    ensures buf[..pt] == old(buf[..pt0]) + Emit(ts, |ts|, clause).text && buf[pt] == '\0'
    ensures forall j :: last <= j < buf.Length ==> buf[j] == old(buf[j])
  {
    ghost var final := Emit(ts, |ts|, clause);
    ghost var head := buf[..pt0];
    pt := pt0;
    var i := 0;
    cnt := 0;
    ghost var e := Emit(ts, 0, clause);
    while i < |ts|
      invariant 0 <= i <= |ts| && e == Emit(ts, i, clause)
      invariant e.count == cnt
      invariant pt == pt0 + |e.text| && |e.text| <= |final.text|
      invariant buf[..pt] == head + e.text && buf[pt] == '\0'
      invariant forall j :: last <= j < buf.Length ==> buf[j] == old(buf[j])
    {
      var pair := ts[i];
      if pair.port == 0 && pair.ip == 0 {
        EmitSkip(ts, i, clause);
        i := i + 1;
        continue;
      }
      if cnt >= MAX_FILTER_ITEMS {
        EmitSaturated(ts, i, |ts|, clause);
        break;
      }
      cnt := cnt + 1;
      EmitAppend(ts, i, clause);
      EmitPrefix(ts, i + 1, |ts|, clause);
      var c := clause(pair.ip, pair.port);
      ghost var sep := if i > 0 then " or " else "";
      AppendAssoc(head, e.text, sep + c);
      pt := AppendClause(buf, pt, i, c);
      i := i + 1;
      e := Emit(ts, i, clause);
    }
  }

  /**
    The closing `strcpy(pt, ")")`: the C string in `buf` is then the text so far and `")"`.
  */
  method CloseFilter(buf: array<char>, pt: nat, ghost text: seq<char>)
    requires pt + 1 < buf.Length && buf[..pt] == text && '\0' !in text
    modifies buf
    ensures buf[..pt + 1] == text + ")" && CStr(buf[..]) == text + ")"
    ensures forall j :: pt + 1 < j < buf.Length ==> buf[j] == old(buf[j])
  {
    StrCpy(buf, pt, ")");
    StrLenAt(buf[..], pt + 1);
  }

  /** The opening `strcpy(pt, "tcp and (")` and `pt += strlen(pt)`: `pt` ends up past the head. */
  method OpenFilter(buf: array<char>, udp: bool) returns (pt: nat)
    requires |Head(udp)| < buf.Length
    modifies buf
    ensures pt == |Head(udp)| && buf[..pt] == Head(udp) && buf[pt] == '\0'
    ensures forall j :: pt < j < buf.Length ==> buf[j] == old(buf[j])
  {
    StrCpy(buf, 0, Head(udp));
    pt := 0 + StrLen(buf[0..]);
  }

  /**
    `extract_filter`: writes the filter for targets `ts` into `buf` as a C string and
    returns whether no clause was written (the "filter is not set" warning).
    The source does not check the buffer's size: the text must fit.
  */
  method ExtractFilter(buf: array<char>, ts: seq<IpPort>, udp: bool, clause: ClauseFn)
    returns (unset: bool)
    requires NoNulClauses(clause)
    requires |FilterText(udp, ts, clause)| < buf.Length
    modifies buf
    ensures buf[..|FilterText(udp, ts, clause)|] == FilterText(udp, ts, clause)
    ensures CStr(buf[..]) == FilterText(udp, ts, clause)
    ensures forall j :: |FilterText(udp, ts, clause)| < j < buf.Length ==> buf[j] == old(buf[j])
    ensures unset <==> Usable(ts) == []
  {
    ghost var body := Emit(ts, |ts|, clause).text;
    ghost var last := |FilterText(udp, ts, clause)| + 1;
    var pt := OpenFilter(buf, udp);
    var cnt;
    pt, cnt := EmitTargets(buf, ts, clause, pt, last);
    EmitNoNul(ts, |ts|, clause);
    CloseFilter(buf, pt, Head(udp) + body);
    assert pt + 1 == |FilterText(udp, ts, clause)|;
    NoUsableTarget(udp, ts, clause);
    unset := cnt == 0;
  }
}
