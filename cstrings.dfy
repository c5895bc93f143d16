/**
  NUL-terminated character strings, the way the agent's configuration code walks them.
  A C string is read from a character sequence up to its first NUL; the helpers below
  are the pieces of libc the parsers rely on (`strlen`, `strchr`, `strcpy`) and the
  splitting of a delimiter-separated list into its tokens.
*/
module CStrings {

  // ---------------------------------------------------------------- strlen

  /** `strlen`: how many characters come before the first NUL (all of them when there is none). */
  function StrLen(s: seq<char>): (n: nat)
    ensures n <= |s|
    ensures forall j :: 0 <= j < n ==> s[j] != '\0'
    ensures n < |s| ==> s[n] == '\0'
  {
    if s == [] || s[0] == '\0' then 0 else 1 + StrLen(s[1..])
  }

  /** The C string that starts at `s[0]`: the characters before the first NUL. */
  function CStr(s: seq<char>): (r: seq<char>)
    ensures r <= s && '\0' !in r
    ensures |r| < |s| ==> s[|r|] == '\0'
  {
    s[..StrLen(s)]
  }

  /** A NUL at position `n` with none before it fixes the length of the C string. */
  lemma StrLenAt(s: seq<char>, n: nat)
    requires n <= |s| && '\0' !in s[..n]
    requires n < |s| ==> s[n] == '\0'
    ensures StrLen(s) == n && CStr(s) == s[..n]
  {
  }

  /** A string followed by a NUL reads back as that string. */
  lemma CStrOfTerminated(t: seq<char>, rest: seq<char>)
    requires '\0' !in t
    ensures CStr(t + ['\0'] + rest) == t
  {
    var s := t + ['\0'] + rest;
    assert s[..|t|] == t;
    StrLenAt(s, |t|);
  }

  /** Overwriting a character of the string with NUL cuts the string there. */
  lemma CStrCut(s: seq<char>, k: nat)
    requires k < |s| && k <= StrLen(s)
    ensures CStr(s[k := '\0']) == CStr(s)[..k]
  {
    var u := s[k := '\0'];
    assert u[..k] == s[..k];
    assert s[..k] == CStr(s)[..k];
    StrLenAt(u, k);
  }

  /** The C string that starts just after position `k` of another is its tail. */
  lemma CStrDrop(s: seq<char>, k: nat)
    requires k < StrLen(s)
    ensures CStr(s[k + 1..]) == CStr(s)[k + 1..]
  {
    var n := StrLen(s);
    var u := s[k + 1..];
    assert u[..n - k - 1] == s[k + 1..n];
    StrLenAt(u, n - k - 1);
  }

  /** Within a C string, the C string that starts at `p` is the tail of the whole one. */
  lemma CStrAt(s: seq<char>, p: nat)
    requires p <= StrLen(s)
    ensures CStr(s[p..]) == CStr(s)[p..]
  {
    if p == 0 {
      assert s[p..] == s;
    } else {
      CStrDrop(s, p - 1);
    }
  }

  /**
    The array holds exactly the characters of `a`, stated index by index (cheaper for the
    verifier to carry through loops than an equation between whole sequences).
  */
  predicate Holds(buf: array<char>, a: seq<char>)
    reads buf
  {
    buf.Length == |a| && forall j :: 0 <= j < |a| ==> buf[j] == a[j]
  }

  // ---------------------------------------------------------------- strchr

  /** The position of the first `c` in `s`, or -1 when `s` holds no `c`. */
  function IndexOf(s: seq<char>, c: char): (r: int)
    ensures -1 <= r < |s|
    ensures r == -1 <==> c !in s
    ensures r >= 0 ==> s[r] == c && c !in s[..r]
  {
    if s == [] then -1
    else if s[0] == c then 0
    else
      var r := IndexOf(s[1..], c);
      if r == -1 then -1
      else
        assert s[..r + 1] == [s[0]] + s[1..][..r];
        r + 1
  }

  /** The first `c` after a prefix free of `c` is found right after that prefix. */
  lemma IndexOfAfter(a: seq<char>, c: char, b: seq<char>)
    requires c !in a
    ensures IndexOf(a + [c] + b, c) == |a|
  {
    var s := a + [c] + b;
    assert s[|a|] == c;
  }

  /**
    `strchr(p, c)` for a non-NUL `c` on the string that starts at `a[lo]`: the index of the
    first `c` before the terminating NUL, or -1 for a NULL result.
  */
  method Strchr(a: array<char>, lo: nat, c: char) returns (r: int)
    requires lo <= a.Length && c != '\0'
    ensures r == -1 <==> c !in CStr(a[lo..])
    ensures r != -1 ==> r == lo + IndexOf(CStr(a[lo..]), c)
  {
    ghost var s := a[lo..];
    var i := lo;
    while i < a.Length && a[i] != '\0' && a[i] != c
      invariant lo <= i <= a.Length
      invariant forall j :: lo <= j < i ==> a[j] != '\0' && a[j] != c
    {
      i := i + 1;
    }
    assert forall j :: 0 <= j < i - lo ==> s[j] != '\0' && s[j] != c;
    if i < a.Length && a[i] == c {
      FoundBeforeNul(s, i - lo, c);
      r := i;
    } else {
      StrLenAt(s, i - lo);
      r := -1;
    }
  }

  /** A `c` reached before any NUL or earlier `c` is the first `c` of the C string. */
  lemma FoundBeforeNul(s: seq<char>, k: nat, c: char)
    requires k < |s| && s[k] == c && c != '\0'
    requires forall j :: 0 <= j < k ==> s[j] != '\0' && s[j] != c
    ensures c in CStr(s) && IndexOf(CStr(s), c) == k
  {
    assert StrLen(s) > k;
    assert CStr(s)[k] == c;
    assert CStr(s)[..k] == s[..k];
  }

  // ---------------------------------------------------------------- strcpy

  /**
    `strcpy(buf + at, s)`: writes `s` and its terminating NUL and leaves every other cell
    alone; the C string now at `at` is `s` when `s` itself holds no NUL.
  */
  method StrCpy(buf: array<char>, at: nat, s: seq<char>)
    requires at + |s| < buf.Length
    modifies buf
    ensures buf[..at + |s|] == old(buf[..at]) + s && buf[at + |s|] == '\0'
    ensures forall j :: at + |s| < j < buf.Length ==> buf[j] == old(buf[j])
    ensures '\0' !in s ==> StrLen(buf[at..]) == |s|
  {
    forall j | 0 <= j < |s| {
      buf[at + j] := s[j];
    }
    buf[at + |s|] := '\0';
    assert buf[at..][..|s|] == s;
    if '\0' !in s {
      StrLenAt(buf[at..], |s|);
    }
  }

  /**
    `strncpy(dst, src + at, n)`: copies the C string at `src[at]` up to `n` characters and
    pads the rest of the `n` with NUL; cells of `dst` from `n` on are left alone.
  */
  method StrNCpy(dst: array<char>, src: array<char>, at: nat, n: nat)
    requires n <= dst.Length && at <= src.Length && dst != src
    modifies dst
    ensures forall j :: 0 <= j < n ==>
      dst[j] == if j < StrLen(src[at..]) then src[at + j] else '\0'
    ensures forall j :: n <= j < dst.Length ==> dst[j] == old(dst[j])
  {
    ghost var s := src[at..];
    var i := 0;
    while i < n && at + i < src.Length && src[at + i] != '\0'
      invariant 0 <= i <= n && i <= StrLen(s)
      invariant forall j :: 0 <= j < i ==> dst[j] == src[at + j]
      invariant forall j :: n <= j < dst.Length ==> dst[j] == old(dst[j])
    {
      assert s[i] == src[at + i];
      dst[i] := src[at + i];
      i := i + 1;
    }
    assert i < n ==> i == StrLen(s);
    while i < n
      invariant 0 <= i <= n
      invariant forall j :: 0 <= j < i ==>
        dst[j] == if j < StrLen(s) then src[at + j] else '\0'
      invariant forall j :: n <= j < dst.Length ==> dst[j] == old(dst[j])
    {
      dst[i] := '\0';
      i := i + 1;
    }
  }

  // ---------------------------------------------------------------- token lists

  /** How many times `c` occurs in `s`. */
  function Count(s: seq<char>, c: char): nat
  {
    if s == [] then 0 else (if s[0] == c then 1 else 0) + Count(s[1..], c)
  }

  lemma {:induction false} CountConcat(a: seq<char>, b: seq<char>, c: char)
    ensures Count(a + b, c) == Count(a, c) + Count(b, c)
  {
    if a == [] {
      assert a + b == b;
    } else {
      assert (a + b)[1..] == a[1..] + b;
      CountConcat(a[1..], b, c);
    }
  }

  lemma CountSnoc(s: seq<char>, x: char, c: char)
    ensures Count(s + [x], c) == Count(s, c) + (if x == c then 1 else 0)
  {
    CountConcat(s, [x], c);
    assert [x][1..] == [];
  }

  lemma {:induction false} CountAbsent(s: seq<char>, c: char)
    ensures Count(s, c) == 0 <==> c !in s
  {
    if s != [] {
      CountAbsent(s[1..], c);
      assert s == [s[0]] + s[1..];
    }
  }

  /**
    The tokens of `s` between occurrences of `sep`, in order; the last token is whatever
    follows the final separator (possibly empty), and a string without `sep` is one token.
  */
  function Split(s: seq<char>, sep: char): (toks: seq<seq<char>>)
    ensures |toks| >= 1
    decreases |s|
  {
    var k := IndexOf(s, sep);
    if k < 0 then [s] else [s[..k]] + Split(s[k + 1..], sep)
  }

  /** One token per separator plus one. */
  lemma {:induction false} SplitLength(s: seq<char>, sep: char)
    ensures |Split(s, sep)| == Count(s, sep) + 1
    decreases |s|
  {
    var k := IndexOf(s, sep);
    CountAbsent(s, sep);
    if k >= 0 {
      SplitLength(s[k + 1..], sep);
      assert s == s[..k] + [sep] + s[k + 1..];
      CountConcat(s[..k] + [sep], s[k + 1..], sep);
      CountConcat(s[..k], [sep], sep);
      CountAbsent(s[..k], sep);
    }
  }

  /** Where token `i` of a split list starts: after the earlier tokens and one separator each. */
  function Offset(toks: seq<seq<char>>, i: nat): nat
    requires i <= |toks|
  {
    if i == 0 then 0 else Offset(toks, i - 1) + |toks[i - 1]| + 1
  }

  /** A split with at least two tokens continues one separator past the first token. */
  lemma SplitAdvance(t: seq<char>, sep: char, rest: seq<seq<char>>)
    requires Split(t, sep) == rest && |rest| >= 2
    ensures |rest[0]| < |t| && Split(t[|rest[0]| + 1..], sep) == rest[1..]
  {
    var k := IndexOf(t, sep);
    assert Split(t, sep) == if k < 0 then [t] else [t[..k]] + Split(t[k + 1..], sep);
    assert k >= 0;
    var tail := Split(t[k + 1..], sep);
    assert rest == [t[..k]] + tail;
    assert rest[0] == t[..k] && rest[1..] == tail;
  }

  /** Splitting what follows the start of token `i` gives the tokens from `i` on. */
  lemma {:induction false} OffsetSplit(s: seq<char>, sep: char, i: nat)
    requires i < |Split(s, sep)|
    ensures Offset(Split(s, sep), i) <= |s|
    ensures Split(s[Offset(Split(s, sep), i)..], sep) == Split(s, sep)[i..]
  {
    var toks := Split(s, sep);
    if i == 0 {
      assert s[0..] == s;
    } else {
      OffsetSplit(s, sep, i - 1);
      var o := Offset(toks, i - 1);
      SplitAdvance(s[o..], sep, toks[i - 1..]);
      assert toks[i - 1..][0] == toks[i - 1];
      assert s[o..][|toks[i - 1]| + 1..] == s[Offset(toks, i)..];
      assert toks[i - 1..][1..] == toks[i..];
    }
  }

  /** The tokens joined back with the separator between consecutive ones. */
  function Join(toks: seq<seq<char>>, sep: char): seq<char>
    requires |toks| >= 1
  {
    if |toks| == 1 then toks[0] else toks[0] + [sep] + Join(toks[1..], sep)
  }

  /** Splitting loses nothing: joining the tokens gives the string back. */
  lemma {:induction false} JoinSplit(s: seq<char>, sep: char)
    ensures Join(Split(s, sep), sep) == s
    decreases |s|
  {
    var k := IndexOf(s, sep);
    var t := Split(s, sep);
    if k < 0 {
      assert t == [s];
    } else {
      var r := Split(s[k + 1..], sep);
      assert t == [s[..k]] + r;
      assert t[0] == s[..k] && t[1..] == r;
      JoinSplit(s[k + 1..], sep);
      assert Join(t, sep) == s[..k] + [sep] + s[k + 1..];
      assert s == s[..k] + [sep] + s[k + 1..];
    }
  }

  /** Tokens free of the separator come back unchanged from a join followed by a split. */
  lemma {:induction false} SplitJoin(toks: seq<seq<char>>, sep: char)
    requires |toks| >= 1
    requires forall k :: 0 <= k < |toks| ==> sep !in toks[k]
    ensures Split(Join(toks, sep), sep) == toks
  {
    if |toks| == 1 {
      assert Split(toks[0], sep) == [toks[0]] by {
        assert IndexOf(toks[0], sep) == -1;
      }
    } else {
      var rest := Join(toks[1..], sep);
      assert Join(toks, sep) == toks[0] + [sep] + rest;
      SplitHead(toks[0], sep, rest);
      SplitJoin(toks[1..], sep);
      assert toks == [toks[0]] + toks[1..];
    }
  }

  /** A token free of the separator, then the separator: that token comes first. */
  lemma SplitHead(a: seq<char>, sep: char, b: seq<char>)
    requires sep !in a
    ensures Split(a + [sep] + b, sep) == [a] + Split(b, sep)
  {
    var s := a + [sep] + b;
    IndexOfAfter(a, sep, b);
    assert s[..|a|] == a && s[|a| + 1..] == b;
  }

  /** No token of a split holds the separator. */
  lemma {:induction false} SplitNoSep(s: seq<char>, sep: char)
    ensures forall t :: t in Split(s, sep) ==> sep !in t
    decreases |s|
  {
    var k := IndexOf(s, sep);
    if k >= 0 {
      SplitNoSep(s[k + 1..], sep);
    }
  }

  /** Joining two non-empty token lists puts one separator between their joins. */
  lemma {:induction false} JoinConcat(x: seq<seq<char>>, y: seq<seq<char>>, sep: char)
    requires |x| >= 1 && |y| >= 1
    ensures Join(x + y, sep) == Join(x, sep) + [sep] + Join(y, sep)
  {
    if |x| > 1 {
      JoinConcat(x[1..], y, sep);
      assert (x + y)[1..] == x[1..] + y;
    }
  }

  /** A separator splits the string into the tokens of both sides. */
  lemma SplitConcat(a: seq<char>, sep: char, b: seq<char>)
    ensures Split(a + [sep] + b, sep) == Split(a, sep) + Split(b, sep)
  {
    var x, y := Split(a, sep), Split(b, sep);
    JoinSplit(a, sep);
    JoinSplit(b, sep);
    JoinConcat(x, y, sep);
    SplitNoSep(a, sep);
    SplitNoSep(b, sep);
    assert forall k :: 0 <= k < |x + y| ==> (x + y)[k] in x || (x + y)[k] in y;
    SplitJoin(x + y, sep);
  }

  /**
    One step of walking a list through a C string: the C string at `p` splits into the
    token before its first separator and the split of the C string just after that
    separator; without a separator it is the last token.
  */
  lemma SplitCStrStep(a: seq<char>, p: nat, sep: char)
    requires p <= |a| && sep != '\0'
    ensures var cs := CStr(a[p..]); var k := IndexOf(cs, sep);
      && (k < 0 ==> Split(cs, sep) == [cs])
      && (k >= 0 ==> p + k + 1 <= |a|
                     && Split(cs, sep) == [cs[..k]] + Split(CStr(a[p + k + 1..]), sep))
  {
    var s := a[p..];
    var cs := CStr(s);
    var k := IndexOf(cs, sep);
    SplitUnfold(cs, sep);
    if k >= 0 {
      assert k < |cs| == StrLen(s);
      CStrDrop(s, k);
      assert s[k + 1..] == a[p + k + 1..];
      calc {
        Split(cs, sep);
        [cs[..k]] + Split(cs[k + 1..], sep);
        { assert CStr(a[p + k + 1..]) == cs[k + 1..]; }
        [cs[..k]] + Split(CStr(a[p + k + 1..]), sep);
      }
    }
  }

  /** One step of `Split`: the token before the first separator, then the split of the rest. */
  lemma SplitUnfold(s: seq<char>, sep: char)
    ensures var k := IndexOf(s, sep);
      Split(s, sep) == if k < 0 then [s] else [s[..k]] + Split(s[k + 1..], sep)
  {
  }



  /**
    The loop invariant of both list walkers, advanced by one token: when the C string at
    `p` splits into `toks[i..]`, token `i` is the text before its first separator, and
    either that is the last token or the C string after the separator splits into the rest.
  */
  lemma SplitWalk(a: seq<char>, p: nat, sep: char, toks: seq<seq<char>>, i: nat)
    requires p <= |a| && sep != '\0' && i < |toks|
    requires Split(CStr(a[p..]), sep) == toks[i..]
    ensures var cs := CStr(a[p..]); var k := IndexOf(cs, sep);
      && (k < 0 ==> toks[i] == cs && i + 1 == |toks|)
      && (k >= 0 ==> p + k + 1 <= |a| && toks[i] == cs[..k]
                     && Split(CStr(a[p + k + 1..]), sep) == toks[i + 1..])
  {
    SplitCStrStep(a, p, sep);
    assert toks[i..][0] == toks[i];
    assert toks[i..][1..] == toks[i + 1..];
  }

  /**
    What `strchr(p, sep)` tells a list walker positioned at token `i`: without a hit, the
    token is the rest of the C string and the last one; with a hit at `split`, the token is
    the text up to `split` and the C string after it splits into the remaining tokens.
  */
  lemma TokenFacts(a: seq<char>, p: nat, sep: char, toks: seq<seq<char>>, i: nat, split: int)
    requires p <= |a| && sep != '\0' && i < |toks|
    requires Split(CStr(a[p..]), sep) == toks[i..]
    requires split == -1 <==> sep !in CStr(a[p..])
    requires split != -1 ==> split == p + IndexOf(CStr(a[p..]), sep)
    ensures split == -1 ==> && i + 1 == |toks| && toks[i] == CStr(a[p..])
                            && toks[i] == a[p..p + StrLen(a[p..])]
    ensures split != -1 ==> && p <= split < p + StrLen(a[p..]) && a[split] == sep
                            && toks[i] == a[p..split]
                            && Split(CStr(a[split + 1..]), sep) == toks[i + 1..]
  {
    SplitWalk(a, p, sep, toks, i);
    if split != -1 {
      var k := split - p;
      assert a[p..][k] == a[split];
      assert a[p..][..k] == a[p..split];
    }
  }
}
