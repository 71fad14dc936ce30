/**
 * The wildcard matcher of f_findfirst and f_findnext, for the double-byte code page 936.
 */
module Pattern {
  import opened Types

  // Strings end at a NUL, which is not part of the sequence.
  ghost predicate Text(s: seq<byte>) {
    forall i :: 0 <= i < |s| ==> s[i] != 0
  }

  const QUESTION: byte := 0x3F
  const STAR: byte := 0x2A

  // The byte at a pointer; a pointer to the end shows the NUL.
  function ByteAt(s: seq<byte>, i: nat): byte
    requires i <= |s|
  {
    if i < |s| then s[i] else 0
  }

  predicate IsDbcs1(c: nat) {
    0x81 <= c <= 0xFE
  }

  predicate IsDbcs2(c: nat) {
    0x40 <= c <= 0x7E || 0x80 <= c <= 0xFE
  }

  function ToUpper(c: nat): nat {
    if 0x61 <= c <= 0x7A then c - 0x20 else c
  }

  // The character at i, and where the next one begins.
  function CharAt(s: seq<byte>, i: nat): (c: nat)
    requires i < |s|
  {
    var c := ToUpper(s[i]);
    if IsDbcs1(c) && IsDbcs2(ByteAt(s, i + 1)) then c * 0x100 + ByteAt(s, i + 1) else c
  }

  function NextAt(s: seq<byte>, i: nat): (j: nat)
    requires i < |s|
    ensures i < j <= |s|
  {
    if IsDbcs1(ToUpper(s[i])) && IsDbcs2(ByteAt(s, i + 1)) then i + 2 else i + 1
  }

  // get_achar: at the end it gives 0 and does not move. (The C code steps over the NUL there,
  // but never looks at the pointer again.)
  method GetAchar(s: seq<byte>, i: nat) returns (c: nat, j: nat)
    requires Text(s) && i <= |s|
    ensures if i < |s| then c == CharAt(s, i) != 0 && j == NextAt(s, i) else c == 0 && j == i
  {
    c, j := ToUpper(ByteAt(s, i)), i;
    if i < |s| {
      j := i + 1;
      if IsDbcs1(c) && IsDbcs2(ByteAt(s, j)) {
        c := c * 0x100 + ByteAt(s, j);
        j := j + 1;
      }
    }
  }

  // The characters of s from i on.
  function Chars(s: seq<byte>, i: nat): seq<nat>
    decreases |s| - i
  {
    if i >= |s| then [] else [CharAt(s, i)] + Chars(s, NextAt(s, i))
  }

  datatype Tok = Lit(c: nat) | Any | Star

  // The pattern from i on.
  function Toks(s: seq<byte>, i: nat): seq<Tok>
    decreases |s| - i
  {
    if i >= |s| then []
    else if s[i] == QUESTION then [Any] + Toks(s, i + 1)
    else if s[i] == STAR then [Star] + Toks(s, i + 1)
    else [Lit(CharAt(s, i))] + Toks(s, NextAt(s, i))
  }

  // The language of a pattern: a literal is itself, Any is one character, Star any string.
  predicate Matches(t: seq<Tok>, x: seq<nat>)
    decreases |t|, |x|
  {
    if t == [] then x == []
    else match t[0]
      case Lit(c) => x != [] && x[0] == c && Matches(t[1..], x[1..])
      case Any => x != [] && Matches(t[1..], x[1..])
      case Star => Matches(t[1..], x) || (x != [] && Matches(t, x[1..]))
  }

  // nm characters, and any string if nx, and then t.
  ghost predicate Behind(nm: nat, nx: bool, t: seq<Tok>, x: seq<nat>) {
    if nx then exists j :: nm <= j <= |x| && Matches(t, x[j..])
    else nm <= |x| && Matches(t, x[nm..])
  }

  lemma {:induction false} StarIff(t: seq<Tok>, x: seq<nat>)
    requires t != [] && t[0] == Star
    ensures Matches(t, x) <==> exists j :: 0 <= j <= |x| && Matches(t[1..], x[j..])
    decreases |x|
  {
    assert x[0..] == x;
    if x != [] {
      var y := x[1..];
      StarIff(t, y);
      if j :| 0 <= j <= |y| && Matches(t[1..], y[j..]) {
        assert y[j..] == x[j + 1..];
      }
      if j :| 0 <= j <= |x| && Matches(t[1..], x[j..]) {
        if j > 0 {
          assert x[j..] == y[j - 1..];
        }
      }
    }
  }

  // Reading a wildcard off the pattern.
  lemma BehindAny(nm: nat, nx: bool, t: seq<Tok>, x: seq<nat>)
    requires t != [] && t[0] == Any
    ensures Behind(nm, nx, t, x) <==> Behind(nm + 1, nx, t[1..], x)
  {
    forall j | 0 <= j < |x| ensures Matches(t, x[j..]) <==> Matches(t[1..], x[j + 1..]) {
      assert x[j..][1..] == x[j + 1..];
    }
    if nx {
      if j :| nm <= j <= |x| && Matches(t, x[j..]) {
        assert Matches(t[1..], x[j + 1..]);
      }
      if j :| nm + 1 <= j <= |x| && Matches(t[1..], x[j..]) {
        assert Matches(t, x[j - 1..]);
      }
    }
  }

  lemma BehindStar(nm: nat, nx: bool, t: seq<Tok>, x: seq<nat>)
    requires t != [] && t[0] == Star
    ensures Behind(nm, nx, t, x) <==> Behind(nm, true, t[1..], x)
  {
    forall j | 0 <= j <= |x|
      ensures Matches(t, x[j..]) <==> exists i :: j <= i <= |x| && Matches(t[1..], x[i..])
    {
      StarFrom(t, x, j);
    }
    if Behind(nm, true, t[1..], x) {
      var i :| nm <= i <= |x| && Matches(t[1..], x[i..]);
      assert Matches(t, x[nm..]);
    }
  }

  lemma StarFrom(t: seq<Tok>, x: seq<nat>, j: nat)
    requires t != [] && t[0] == Star && j <= |x|
    ensures Matches(t, x[j..]) <==> exists i :: j <= i <= |x| && Matches(t[1..], x[i..])
  {
    var y := x[j..];
    StarIff(t, y);
    if i :| 0 <= i <= |y| && Matches(t[1..], y[i..]) {
      assert y[i..] == x[j + i..];
    }
    if i :| j <= i <= |x| && Matches(t[1..], x[i..]) {
      assert x[i..] == y[i - j..];
    }
  }

  // Skipping a character of the name.
  lemma BehindSkip(nm: nat, nx: bool, t: seq<Tok>, x: seq<nat>)
    requires 0 < nm
    ensures Behind(nm, nx, t, x) <==> x != [] && Behind(nm - 1, nx, t, x[1..])
  {
    if x != [] {
      var y := x[1..];
      forall j | 1 <= j <= |x| ensures x[j..] == y[j - 1..] {
      }
      if nx {
        if j :| nm <= j <= |x| && Matches(t, x[j..]) {
          assert Matches(t, y[j - 1..]);
        }
        if j :| nm - 1 <= j <= |y| && Matches(t, y[j..]) {
          assert Matches(t, x[j + 1..]);
        }
      }
    }
  }

  // q literals ask for q characters.
  lemma {:induction false} LiteralsNeedChars(t: seq<Tok>, q: nat, x: seq<nat>)
    requires q <= |t| && forall i :: 0 <= i < q ==> t[i].Lit?
    requires |x| < q
    ensures !Matches(t, x)
  {
    if x != [] {
      LiteralsNeedChars(t[1..], q - 1, x[1..]);
    }
  }

  predicate IsWild(b: byte) {
    b == QUESTION || b == STAR
  }

  // Analyze the wildcard characters at pp: nm question marks, and whether there is a star.
  method WildRun(pat: seq<byte>, pp0: nat, ghost x: seq<nat>) returns (pp: nat, nm: nat, nx: bool)
    requires Text(pat) && pp0 < |pat| && IsWild(pat[pp0])
    ensures pp0 < pp <= |pat| && (Matches(Toks(pat, pp0), x) <==> Behind(nm, nx, Toks(pat, pp), x))
  {
    pp, nm, nx := pp0, 0, false;
    assert x[0..] == x;
    while pp < |pat| && IsWild(pat[pp])
      invariant pp0 <= pp <= |pat| && (pp == pp0 ==> IsWild(pat[pp]))
      invariant Matches(Toks(pat, pp0), x) <==> Behind(nm, nx, Toks(pat, pp), x)
      decreases |pat| - pp
    {
      ghost var t := Toks(pat, pp);
      if pat[pp] == QUESTION {
        assert t[1..] == Toks(pat, pp + 1);
        BehindAny(nm, nx, t, x);
        nm := nm + 1;
      } else {
        assert t[1..] == Toks(pat, pp + 1);
        BehindStar(nm, nx, t, x);
        nx := true;
      }
      pp := pp + 1;
    }
  }

  // The literals before position pp of the pattern stand at the head of the name.
  ghost predicate Consumed(t: seq<Tok>, x: seq<nat>, q: nat, t': seq<Tok>, x': seq<nat>) {
    && q <= |t| && q <= |x| && t' == t[q..] && x' == x[q..]
    && forall i :: 0 <= i < q ==> t[i] == Lit(x[i])
  }

  lemma {:induction false} ConsumedMatches(t: seq<Tok>, x: seq<nat>, q: nat, t': seq<Tok>, x': seq<nat>)
    requires Consumed(t, x, q, t', x')
    ensures Matches(t, x) <==> Matches(t', x')
  {
    if q == 0 {
      assert t' == t && x' == x;
    } else {
      ConsumedMatches(t[1..], x[1..], q - 1, t', x');
    }
  }

  // Once the name is used up behind q literals, it is too short from any later character on.
  lemma TooShort(t: seq<Tok>, x: seq<nat>, q: nat, t': seq<Tok>, x': seq<nat>, j: nat)
    requires Consumed(t, x, q, t', x') && x' == [] && 0 < j <= |x|
    ensures !Matches(t, x[j..])
  {
    LiteralsNeedChars(t, q, x[j..]);
  }

  lemma ConsumeOne(t: seq<Tok>, x: seq<nat>, q: nat, t': seq<Tok>, x': seq<nat>)
    requires Consumed(t, x, q, t', x') && t' != [] && x' != [] && t'[0] == Lit(x'[0])
    ensures Consumed(t, x, q + 1, t'[1..], x'[1..])
  {
    assert t[q] == t'[0] && x[q] == x'[0];
    assert t'[1..] == t[q + 1..] && x'[1..] == x[q + 1..];
  }

  // The inner loop of pattern_matching: compare from p and n on. At a mismatch, nc is 0 when the
  // name is used up, and then no later start can match either.
  method Try(pat: seq<byte>, p: nat, nam: seq<byte>, n: nat) returns (res: bool, nc: nat)
    requires Text(pat) && Text(nam) && p <= |pat| && n <= |nam|
    ensures res <==> Matches(Toks(pat, p), Chars(nam, n))
    ensures !res && nc == 0 ==> forall j :: 0 < j <= |Chars(nam, n)| ==> !Matches(Toks(pat, p), Chars(nam, n)[j..])
    ensures !res && nc != 0 ==> n < |nam|
    decreases |pat| - p, 0
  {
    ghost var t, x := Toks(pat, p), Chars(nam, n);
    var pp, np := p, n;
    ghost var q := 0;
    while true
      invariant p <= pp <= |pat| && n <= np <= |nam|
      invariant Consumed(t, x, q, Toks(pat, pp), Chars(nam, np))
      decreases |pat| - pp
    {
      ghost var t', x' := Toks(pat, pp), Chars(nam, np);
      ConsumedMatches(t, x, q, t', x');
      forall j | 0 < j <= |x| && x' == [] ensures !Matches(t, x[j..]) {
        TooShort(t, x, q, t', x', j);
      }
      if pp < |pat| && IsWild(pat[pp]) {
        var pp', nm, nx := WildRun(pat, pp, x');
        var branch := PatternMatching(pat, pp', nam, np, nm, nx);
        nc := ByteAt(nam, np);
        return branch, nc;
      }
      var pc, pp' := GetAchar(pat, pp);
      var nc', np' := GetAchar(nam, np);
      if pc != nc' {
        return false, nc';
      }
      if pc == 0 {
        return true, nc';
      }
      ConsumeOne(t, x, q, t', x');
      pp, np, q := pp', np', q + 1;
    }
  }

  /**
   * pattern_matching: with skip question marks and possibly a star before it, the pattern from p on
   * matches the name from n on exactly when the name is in its language. The recursion and the
   * search end, and stopping at the end of the name loses nothing.
   */
  method PatternMatching(pat: seq<byte>, p: nat, nam: seq<byte>, n: nat, skip: nat, inf: bool) returns (res: bool)
    requires Text(pat) && Text(nam) && p <= |pat| && n <= |nam|
    ensures res <==> Behind(skip, inf, Toks(pat, p), Chars(nam, n))
    decreases |pat| - p, 2
  {
    ghost var t := Toks(pat, p);
    var m, k := n, skip;
    while k > 0
      invariant n <= m <= |nam|
      invariant Behind(skip, inf, t, Chars(nam, n)) <==> Behind(k, inf, t, Chars(nam, m))
    {
      BehindSkip(k, inf, t, Chars(nam, m));
      var c, m' := GetAchar(nam, m);
      if c == 0 {
        return false;
      }
      m, k := m', k - 1;
    }
    if p == |pat| && inf {
      EmptyBehindStar(Chars(nam, m));
      return true;
    }
    res := Search(pat, p, nam, m, inf);
  }

  lemma EmptyBehindStar(x: seq<nat>)
    ensures Behind(0, true, [], x)
  {
    assert x[|x|..] == [];
  }

  // The outer loop: try here, and from every later character on if a star comes first.
  method Search(pat: seq<byte>, p: nat, nam: seq<byte>, n: nat, inf: bool) returns (res: bool)
    requires Text(pat) && Text(nam) && p <= |pat| && n <= |nam|
    ensures res <==> Behind(0, inf, Toks(pat, p), Chars(nam, n))
    decreases |pat| - p, 1
  {
    ghost var t, x := Toks(pat, p), Chars(nam, n);
    var m, more := n, true;
    ghost var j := 0;
    res := false;
    assert x[0..] == x;
    while more
      invariant n <= m <= |nam| && j <= |x| && Chars(nam, m) == x[j..] && NoneBefore(t, x, j) == true
      invariant !more ==> Behind(0, inf, t, x) == false
      invariant !inf && more ==> j == 0
      decreases more, |nam| - m
    {
      var nc;
      res, nc := Try(pat, p, nam, m);
      if res {
        MatchHere(t, x, j, inf);
        return;
      }
      NoneHere(t, x, j, inf, nc == 0);
      var c, m' := GetAchar(nam, m);
      more := inf && nc != 0;
      if more {
        assert x[j + 1..] == x[j..][1..];
        m, j := m', j + 1;
      }
    }
  }

  // The pattern matches from no character before the j-th on.
  ghost predicate NoneBefore(t: seq<Tok>, x: seq<nat>, j: nat) {
    j <= |x| && forall i :: 0 <= i < j ==> !Matches(t, x[i..])
  }

  lemma MatchHere(t: seq<Tok>, x: seq<nat>, j: nat, inf: bool)
    requires j <= |x| && Matches(t, x[j..]) && (!inf ==> j == 0)
    ensures Behind(0, inf, t, x)
  {
  }

  // Nor from the j-th on; and from no later one if the name is used up.
  lemma NoneHere(t: seq<Tok>, x: seq<nat>, j: nat, inf: bool, last: bool)
    requires NoneBefore(t, x, j) && !Matches(t, x[j..]) && (!inf ==> j == 0)
    requires last ==> forall k :: 0 < k <= |x[j..]| ==> !Matches(t, x[j..][k..])
    ensures j < |x| ==> NoneBefore(t, x, j + 1)
    ensures !inf || last ==> !Behind(0, inf, t, x)
  {
    forall i | 0 <= i <= |x| && last ensures !Matches(t, x[i..]) {
      if j < i {
        assert x[i..] == x[j..][i - j..];
      }
    }
    assert x[0..] == x;
  }

  /** The matcher as it is called: the whole pattern against the whole name. */
  method MatchName(pat: seq<byte>, nam: seq<byte>) returns (res: bool)
    requires Text(pat) && Text(nam)
    ensures res <==> Matches(Toks(pat, 0), Chars(nam, 0))
  {
    res := PatternMatching(pat, 0, nam, 0, 0, false);
    assert Chars(nam, 0)[0..] == Chars(nam, 0);
  }

  // Upper and lower case. ------------------------------------------------------------------------

  // The same byte, or the same letter in the other case.
  predicate SameLetter(a: byte, b: byte) {
    a == b || ('a' <= a as char <= 'z' && b == a - 0x20) || ('A' <= a as char <= 'Z' && b == a + 0x20)
  }

  lemma UpperIff(a: byte, b: byte)
    ensures ToUpper(a) == ToUpper(b) <==> SameLetter(a, b)
  {
  }

  // From the character at i on, s and t differ at most in the case of letters. The byte behind the
  // first byte of a character of two is no letter.
  ghost predicate SameButCase(s: seq<byte>, t: seq<byte>, i: nat)
    decreases |s| - i
  {
    |s| == |t| &&
    (i < |s| ==> SameLetter(s[i], t[i]) && (IsDbcs1(s[i]) && i + 1 < |s| ==> s[i + 1] == t[i + 1]) && SameButCase(s, t, NextAt(s, i)))
  }

  lemma {:induction false} CharsSame(s: seq<byte>, t: seq<byte>, i: nat)
    requires SameButCase(s, t, i)
    ensures Chars(s, i) == Chars(t, i)
    decreases |s| - i
  {
    if i < |s| {
      UpperIff(s[i], t[i]);
      CharsSame(s, t, NextAt(s, i));
    }
  }

  lemma {:induction false} ToksSame(s: seq<byte>, t: seq<byte>, i: nat)
    requires SameButCase(s, t, i)
    ensures Toks(s, i) == Toks(t, i)
    decreases |s| - i
  {
    if i < |s| {
      UpperIff(s[i], t[i]);
      ToksSame(s, t, NextAt(s, i));
    }
  }

  /** The case of letters makes no difference, in the pattern or in the name. */
  method MatchEitherCase(pat: seq<byte>, nam: seq<byte>, pat': seq<byte>, nam': seq<byte>) returns (res: bool, res': bool)
    requires Text(pat) && Text(nam) && Text(pat') && Text(nam')
    requires SameButCase(pat, pat', 0) && SameButCase(nam, nam', 0)
    ensures res == res'
  {
    ToksSame(pat, pat', 0);
    CharsSame(nam, nam', 0);
    res := MatchName(pat, nam);
    res' := MatchName(pat', nam');
  }

  /** One ASCII character that is no wildcard matches itself, in either case, and no other. */
  lemma OneMatches(a: byte, b: byte)
    requires 0 < a < 0x80 && 0 < b < 0x80 && a != '?' as int && a != '*' as int
    ensures Matches(Toks([a], 0), Chars([b], 0)) <==> SameLetter(a, b)
  {
    UpperIff(a, b);
    assert Toks([a], 0) == [Lit(ToUpper(a))] && Chars([b], 0) == [ToUpper(b)];
    assert Toks([a], 0)[1..] == [] && Chars([b], 0)[1..] == [];
  }

  /** A question mark matches any one character, and a star any name. */
  lemma WildcardsMatch(b: byte, nam: seq<byte>)
    ensures Matches(Toks(['?' as int], 0), Chars([b], 0)) && Matches(Toks(['*' as int], 0), Chars(nam, 0))
  {
    assert Toks(['?' as int], 0) == [Any] && Toks(['*' as int], 0) == [Star];
    assert [Any][1..] == [] && Chars([b], 0)[1..] == [];
    StarMatches(Chars(nam, 0));
  }

  lemma {:induction false} StarMatches(x: seq<nat>)
    ensures Matches([Star], x)
  {
    assert [Star][1..] == [];
    if x != [] {
      StarMatches(x[1..]);
    }
  }

  // A character of two bytes in code page 936.
  predicate TwoBytes(a: byte, b: byte) {
    0x81 <= a <= 0xFE && (0x40 <= b <= 0x7E || 0x80 <= b <= 0xFE)
  }

  /** Two bytes are one character for a question mark exactly when they are one in the code page. */
  lemma OneIfTwoBytes(a: byte, b: byte)
    ensures Matches(Toks(['?' as int], 0), Chars([a, b], 0)) <==> TwoBytes(a, b)
  {
    assert Toks(['?' as int], 0) == [Any] && [Any][1..] == [];
    if TwoBytes(a, b) {
      assert Chars([a, b], 0) == [a * 0x100 + b] && Chars([a, b], 0)[1..] == [];
    } else {
      assert NextAt([a, b], 0) == 1 && Chars([a, b], 0)[1..] == Chars([a, b], 1) && Chars([a, b], 1) != [];
    }
  }

  /** The second byte of such a character counts as it is, even if it would be a letter by itself. */
  lemma SecondByteCounts(a: byte, b: byte, d: byte)
    requires TwoBytes(a, b) && TwoBytes(a, d)
    ensures Matches(Toks([a, b], 0), Chars([a, d], 0)) <==> b == d
  {
    assert Toks([a, b], 0) == [Lit(a * 0x100 + b)] && Chars([a, d], 0) == [a * 0x100 + d];
    assert Toks([a, b], 0)[1..] == [] && Chars([a, d], 0)[1..] == [];
  }
}
