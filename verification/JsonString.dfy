/**
 * The two passes of parse_string: one counts, to know how much memory to ask for, and one copies.
 * They read escapes differently, so the copy can leave both the text and the memory.
 */
module JsonString {
  import opened CString
  import opened Json

  // Where the copy may stand while the count stands before u: there, or between a backslash and
  // the character that is counted with it.
  ghost predicate Near(u: string, w: string) {
    w == u || (2 <= |u| && u[0] == '\\' && w == u[1..])
  }

  // Twice what is left to count, less one inside an escape.
  function Left(u: string, w: string): int
    requires Counted(u).Got?
  {
    2 * Counted(u).value - if |w| < |u| then 1 else 0
  }

  // The copy moved from w to x, and the count from u to y with it.
  ghost predicate Ahead(u: string, w: string, y: string, x: string) {
    && Counted(u).Got? && Counted(y).Got? && Counted(y).rest == Counted(u).rest
    && Near(y, x) && |x| <= |w| && Left(y, x) + (|w| - |x|) <= Left(u, w)
  }

  lemma AheadOn(u: string, w: string, y: string, x: string, y': string, x': string)
    requires Ahead(u, w, y, x) && Ahead(y, x, y', x')
    ensures Ahead(u, w, y', x')
  {
  }

  // One character on, short of where the count stops.
  lemma OneOn(u: string, w: string) returns (y: string)
    requires Counted(u).Got? && Near(u, w) && |Counted(u).rest| < |w|
    ensures Ahead(u, w, y, w[1..])
  {
    if w == u && u[0] == '\\' {
      y := u;
    } else if w == u {
      y := u[1..];
    } else {
      y := u[2..];
      assert w[1..] == u[2..];
    }
  }

  lemma {:induction false} On(u: string, w: string, d: nat) returns (y: string)
    requires Counted(u).Got? && Near(u, w) && |Counted(u).rest| + d <= |w|
    ensures Ahead(u, w, y, w[d..]) == true
    decreases d
  {
    if d == 0 {
      y := u;
      assert w[0..] == w;
    } else {
      var v := OneOn(u, w);
      y := On(v, w[1..], d - 1);
      DropMore(w, d);
      AheadOn(u, w, v, w[1..], y, w[d..]);
    }
  }

  lemma DropMore<T>(s: seq<T>, d: nat)
    requires 0 < d <= |s|
    ensures s[1..][d - 1..] == s[d..]
  {
  }

  // What an escape gives, and how far it goes.
  lemma EscapeGives(w: string)
    requires w != "" && w[0] == '\\' && ParseEscape(w).Got?
    ensures var e := ParseEscape(w);
      || (e.rest == w[2..] && |e.value| == 1 && w[1] != 'u')
      || (6 <= |w| && e.rest == w[6..] && |e.value| <= 3)
      || (12 <= |w| && e.rest == w[12..] && |e.value| <= 4)
  {
  }

  /** A copy that does not go past where the count stopped fits into the memory asked for. */
  lemma CopyFits(u: string)
    requires Counted(u).Got? && Unescape(u).Got? && |Counted(u).rest| <= |Unescape(u).rest|
    ensures |Unescape(u).value| <= Counted(u).value
  {
    CopyFitsFrom(u, u);
  }

  lemma {:induction false} CopyFitsFrom(u: string, w: string)
    requires Counted(u).Got? && Near(u, w) && Unescape(w).Got? && |Counted(u).rest| <= |Unescape(w).rest|
    ensures 2 * |Unescape(w).value| <= Left(u, w) + 1
    decreases |w|
  {
    if w != "" && w[0] != '"' {
      if w[0] != '\\' {
        PlainFits(u, w);
      } else {
        EscapeGives(w);
        var e := ParseEscape(w);
        if w[1] != 'u' {
          ShortFits(u, w);
        } else {
          var u' := On(u, w, |w| - |e.rest|);
          CopyFitsFrom(u', e.rest);
        }
      }
    }
  }

  lemma {:induction false} PlainFits(u: string, w: string)
    requires Counted(u).Got? && Near(u, w) && Unescape(w).Got? && |Counted(u).rest| <= |Unescape(w).rest|
    requires w != "" && w[0] != '"' && w[0] != '\\'
    ensures 2 * |Unescape(w).value| <= Left(u, w) + 1
    decreases |w|, 0
  {
    if w == u {
      CopyFitsFrom(u[1..], w[1..]);
    } else {
      assert w[1..] == u[2..];
      CopyFitsFrom(u[2..], w[1..]);
    }
  }

  // An escape of two characters. Inside another escape, it takes the next character with it.
  lemma {:induction false} ShortFits(u: string, w: string)
    requires Counted(u).Got? && Near(u, w) && Unescape(w).Got? && |Counted(u).rest| <= |Unescape(w).rest|
    requires 2 <= |w| && w[0] == '\\' && w[1] != 'u'
    ensures 2 * |Unescape(w).value| <= Left(u, w) + 1
    decreases |w|, 0
  {
    if w == u {
      CopyFitsFrom(u[2..], w[2..]);
    } else {
      var v := u[2..];
      assert v[0] == w[1] && v[1..] == w[2..];
      if v[0] == '\\' {
        CopyFitsFrom(v, w[2..]);
      } else {
        CopyFitsFrom(v[1..], w[2..]);
      }
    }
  }

  predicate Ordinary(c: char) {
    c != '"' && c != '\\'
  }

  // Every escape is complete, up to the closing quote: four characters follow a \u, and no quote or
  // backslash is among them. Four hexadecimal digits are such characters.
  ghost predicate Proper(u: string)
    decreases |u|
  {
    u == "" || u[0] == '"' ||
    if u[0] != '\\' then Proper(u[1..])
    else if |u| == 1 then false
    else if u[1] != 'u' then Proper(u[2..])
    else 6 <= |u| && Ordinary(u[2]) && Ordinary(u[3]) && Ordinary(u[4]) && Ordinary(u[5]) && Proper(u[6..])
  }

  /**
   * If every escape is complete, both passes stop at the same place, and the copy fits: the
   * string is parsed.
   */
  lemma ProperParses(t: string)
    requires t != "" && t[0] == '"' && Proper(t[1..])
    ensures ParseString(t).Got?
    ensures Counted(t[1..]).Got? && Unescape(t[1..]).Got? && Counted(t[1..]).rest == Unescape(t[1..]).rest
  {
    ProperStops(t[1..]);
    CopyFits(t[1..]);
  }

  lemma {:induction false} ProperStops(u: string)
    requires Proper(u)
    ensures Counted(u).Got? && Unescape(u).Got? && Counted(u).rest == Unescape(u).rest
    decreases |u|
  {
    if u != "" && u[0] != '"' {
      if u[0] != '\\' {
        ProperStops(u[1..]);
      } else if u[1] != 'u' {
        ProperStops(u[2..]);
      } else {
        UnicodeCounted(u);
        UnicodeCopied(u);
        ProperStops(u[6..]);
        if ParseUnicode(u).rest != u[6..] {
          UnicodeCounted(u[6..]);
          ProperStops(u[12..]);
          assert u[6..][6..] == u[12..];
        }
      }
    }
  }

  // A complete \u is counted as five characters.
  lemma UnicodeCounted(u: string)
    requires Proper(u) && 2 <= |u| && u[0] == '\\' && u[1] == 'u'
    ensures 6 <= |u| && Counted(u).Got? == Counted(u[6..]).Got? && Proper(u[6..])
    ensures Counted(u).Got? ==> Counted(u).rest == Counted(u[6..]).rest
  {
    var h, k := u[2..6], u[6..];
    assert u[2..] == h + k;
    assert h[0] == u[2] && h[1] == u[3] && h[2] == u[4] && h[3] == u[5];
    CountPlain(h, k);
  }

  // The copy gets over it, and perhaps over a second one.
  lemma UnicodeCopied(u: string)
    requires Proper(u) && 2 <= |u| && u[0] == '\\' && u[1] == 'u'
    ensures ParseUnicode(u).Got?
    ensures ParseUnicode(u).rest == u[6..] || (12 <= |u| && ParseUnicode(u).rest == u[12..] && u[6] == '\\' && u[7] == 'u')
  {
    var k := u[6..];
    assert Proper(k);
    assert 8 <= |u| ==> k[0] == u[6] && k[1] == u[7];
  }

  /**
   * A \u without its digits may take the copy over the quote where the count stopped: for this
   * text one character is counted, and three are copied.
   */
  lemma CopyOverruns()
    ensures var t := "\"\\u\",\"AAAA\"";
      && Counted(t[1..]) == Got(1, "\",\"AAAA\"") && Unescape(t[1..]) == Got("AAA", "\"")
      && ParseString(t) == Overrun
  {
    var t := "\"\\u\",\"AAAA\"";
    var u := t[1..];
    assert u[2..] == "\",\"AAAA\"" && u[6..] == "AAA\"";
    assert u[2..] == "" + u[2..];
    CountedBehind(u, "", u[2..]);
    ThreeBehindUnicode(u, u[6..]);
  }

  // An escape, ordinary characters and a quote.
  lemma CountedBehind(u: string, p: string, k: string)
    requires 2 <= |u| && u[0] == '\\' && u[2..] == p + k && k != "" && k[0] == '"'
    requires forall i :: 0 <= i < |p| ==> Ordinary(p[i])
    ensures Counted(u) == Got(1 + |p|, k)
  {
    CountPlain(p, k);
  }

  lemma ThreeBehindUnicode(u: string, w: string)
    requires 6 <= |u| && u[0] == '\\' && u[1] == 'u' && !IsHex(u[2]) && w == u[6..] == "AAA\""
    ensures Unescape(u) == Got("AAA", "\"")
  {
    var h := u[2..6];
    assert h[0] == u[2] && Hex4(h) == 0;
    PlainCopied("AAA", "\"");
    assert Unescape("\"") == Got("", "\"") && "AAA" + "\"" == "AAA\"";
    assert "" + "AAA" == "AAA" && "AAA" + "" == "AAA";
  }

  // Ordinary characters are copied.
  lemma {:induction false} PlainCopied(p: string, k: string)
    requires (forall i :: 0 <= i < |p| ==> Ordinary(p[i])) && Unescape(k).Got?
    ensures Unescape(p + k) == Got(p + Unescape(k).value, Unescape(k).rest)
  {
    if p == "" {
      assert p + k == k && "" + Unescape(k).value == Unescape(k).value;
    } else {
      var t := p + k;
      assert t[0] == p[0] && t[1..] == p[1..] + k;
      PlainCopied(p[1..], k);
      assert [p[0]] + (p[1..] + Unescape(k).value) == p + Unescape(k).value;
    }
  }

  /** Going past that place need not do harm: here nothing is copied, and the string is parsed. */
  lemma PassedButFits()
    ensures var t := "\"\\u00\",\"x";
      && Counted(t[1..]) == Got(3, "\",\"x") && Unescape(t[1..]) == Got("", "\"x") && ParseString(t) == Got("", "x")
  {
    var t := "\"\\u00\",\"x";
    var u := t[1..];
    assert u[2..] == "00" + "\",\"x" && u[6..] == "\"x";
    CountedBehind(u, "00", "\",\"x");
    NothingBehindUnicode(u, u[6..]);
    assert "\"x"[1..] == "x";
  }

  lemma NothingBehindUnicode(u: string, w: string)
    requires 6 <= |u| && u[0] == '\\' && u[1] == 'u' && !IsHex(u[4]) && w == u[6..] && w != "" && w[0] == '"'
    ensures Unescape(u) == Got("", w)
  {
    var h := u[2..6];
    assert h[2] == u[4] && Hex4(h) == 0;
    assert Unescape(w) == Got("", w);
    assert "" + "" == "";
  }

  /** And at the end of the text the count reads behind it, where the copy would not. */
  lemma CountOverruns()
    ensures var t := "\"\\u000\\"; Unescape(t[1..]).Got? && Counted(t[1..]) == Overrun && ParseString(t) == Overrun
  {
    var t := "\"\\u000\\";
    var u := t[1..];
    assert u[2..] == "000\\" && u[6..] == "" && Hex4(u[2..6]) == 0;
    assert "000\\"[1..] == "00\\" && "00\\"[1..] == "0\\" && "0\\"[1..] == "\\";
    assert Counted("\\") == Overrun;
    assert Counted("0\\") == Overrun;
    assert Counted("00\\") == Overrun;
    assert Counted("000\\") == Overrun;
  }

  // The passes as loops. Results are behind a key: the methods carry them along unopened. ----------

  ghost predicate LookText(q: int) {
    true
  }

  // Where the parser stands after a result: -1 is the null pointer.
  ghost predicate Reached<T>(r: Parsed<T>, t: string, i: nat, e: int) {
    if !r.Got? then e < 0 else i < e <= |t| && r.rest == t[e..]
  }

  // One round of unescaping.
  lemma UnescapeStep(u: string)
    requires u != "" && u[0] != '"'
    ensures u[0] != '\\' ==> Unescape(u) == Onto([u[0]], Unescape(u[1..]))
    ensures u[0] == '\\' && !ParseEscape(u).Got? ==> Unescape(u) == Overrun
    ensures u[0] == '\\' && ParseEscape(u).Got? ==>
      Unescape(u) == Onto(ParseEscape(u).value, Unescape(ParseEscape(u).rest))
  {
  }

  lemma StringEnds(u: string, s: string)
    requires u == "" || u[0] == '"'
    ensures Onto(s, Unescape(u)) == Got(s, u)
  {
    assert s + "" == s;
  }

  function Onto(s: string, r: Parsed<string>): Parsed<string> {
    if !r.Got? then Failed(r) else Got(s + r.value, r.rest)
  }

  lemma OntoEmpty(r: Parsed<string>)
    ensures Onto("", r) == r
  {
    if r.Got? {
      assert "" + r.value == r.value;
    }
  }

  lemma OntoMore(s: string, x: string, r: Parsed<string>)
    ensures Onto(s, Onto(x, r)) == Onto(s + x, r)
  {
    if r.Got? {
      assert s + (x + r.value) == s + x + r.value;
    }
  }

  lemma SuffixAt(t: string, p: nat, rest: string)
    requires p <= |t| && |rest| <= |t| - p && rest == t[p..][|t| - p - |rest|..]
    ensures rest == t[|t| - |rest|..]
  {
  }

  // The string at u.
  ghost predicate IsString(u: string, r: Parsed<string>) {
    forall q :: LookText(q) ==> ParseString(u) == r
  }

  // The characters s are copied from behind the quote at u; w is to be copied next.
  ghost predicate Copied(u: string, s: string, w: string) {
    u != "" && u[0] == '"' && forall q :: LookText(q) ==> Unescape(u[1..]) == Onto(s, Unescape(w))
  }

  // The copying loop at p; ok says that no escape was cut off.
  ghost predicate Copying(u: string, s: string, t: string, p: int, ok: bool) {
    if ok then 0 <= p <= |t| && Copied(u, s, t[p..]) else IsString(u, Overrun)
  }

  lemma CopyBegins(u: string, t: string, i: nat)
    requires i < |t| && u == t[i..] && t[i] == '"'
    ensures Copying(u, "", t, i + 1, true)
  {
    assert u[1..] == t[i + 1..];
    OntoEmpty(Unescape(u[1..]));
  }

  lemma CopyMore(u: string, s: string, w: string, x: string, rest: string)
    requires Copied(u, s, w) && Unescape(w) == Onto(x, Unescape(rest))
    ensures Copied(u, s + x, rest)
  {
    assert LookText(0);
    OntoMore(s, x, Unescape(rest));
  }

  lemma CopyChar(u: string, s: string, t: string, p: nat)
    requires p < |t| && Copying(u, s, t, p, true) == true && t[p] != '"' && t[p] != '\\'
    ensures Copying(u, s + [t[p]], t, p + 1, true)
  {
    var w := t[p..];
    assert w[1..] == t[p + 1..];
    UnescapeStep(w);
    CopyMore(u, s, w, [t[p]], w[1..]);
  }

  lemma CopyEscape(u: string, s: string, t: string, p: nat, one: Parsed<string>)
    requires p < |t| && Copying(u, s, t, p, true) == true && t[p] == '\\' && one == ParseEscape(t[p..])
    ensures !one.Got? ==> Copying(u, s, t, p, false)
    ensures one.Got? ==> |one.rest| < |t| - p && Copying(u, s + one.value, t, |t| - |one.rest|, true)
  {
    var w := t[p..];
    UnescapeStep(w);
    if !one.Got? {
      CopyFails(u, s, w);
    } else {
      CopyMore(u, s, w, one.value, one.rest);
      EscapeSuffix(w);
      CopyingAt(u, s + one.value, t, p, one.rest);
    }
  }

  lemma CopyingAt(u: string, s: string, t: string, p: nat, rest: string)
    requires Copied(u, s, rest) == true && p < |t| && |rest| < |t| - p && rest == t[p..][|t| - p - |rest|..]
    ensures Copying(u, s, t, |t| - |rest|, true)
  {
    SuffixAt(t, p, rest);
  }

  lemma CopyFails(u: string, s: string, w: string)
    requires Copied(u, s, w) && Unescape(w) == Overrun
    ensures IsString(u, Overrun)
  {
    assert LookText(0);
  }

  // What is left after an escape is a suffix.
  lemma EscapeSuffix(w: string)
    requires w != "" && ParseEscape(w).Got?
    ensures var rest := ParseEscape(w).rest; |rest| < |w| && rest == w[|w| - |rest|..]
  {
  }

  // The count at p: n characters, and those from p on.
  ghost predicate Counting(u: string, n: nat, t: string, p: int, ok: bool) {
    if ok then 0 <= p <= |t| && IsCount(u, Plus(n, Counted(t[p..]))) else IsCount(u, Overrun)
  }

  ghost predicate IsCount(u: string, r: Parsed<nat>) {
    u != "" && u[0] == '"' && forall q :: LookText(q) ==> Counted(u[1..]) == r
  }

  function Plus(n: nat, r: Parsed<nat>): Parsed<nat> {
    if !r.Got? then Failed(r) else Got(n + r.value, r.rest)
  }

  lemma CountBegins(u: string, t: string, i: nat)
    requires i < |t| && u == t[i..] && t[i] == '"'
    ensures Counting(u, 0, t, i + 1, true)
  {
    assert u[1..] == t[i + 1..];
  }

  lemma CountNext(u: string, n: nat, t: string, p: nat)
    requires p < |t| && Counting(u, n, t, p, true) == true && t[p] != '"'
    ensures var q := if t[p] == '\\' then p + 2 else p + 1; Counting(u, n + 1, t, q, q <= |t|)
  {
    assert LookText(0);
    var w := t[p..];
    assert w[1..] == t[p + 1..];
    assert p + 2 <= |t| ==> w[2..] == t[p + 2..];
  }

  lemma CountEnds(u: string, n: nat, t: string, p: nat)
    requires p <= |t| && Counting(u, n, t, p, true) == true && (p < |t| ==> t[p] == '"')
    ensures IsCount(u, Got(n, t[p..]))
  {
    assert LookText(0);
  }

  lemma CountFails(u: string)
    requires IsCount(u, Overrun)
    ensures IsString(u, Overrun)
  {
    assert LookText(0);
  }

  // More is copied than was counted.
  lemma TooLong(u: string, len: nat, rest: string, s: string, t: string, p: int)
    requires IsCount(u, Got(len, rest)) && Copying(u, s, t, p, true) && len < |s|
    ensures IsString(u, Overrun)
  {
    assert LookText(0);
    OnlyOverruns(u[1..]);
  }

  lemma {:induction false} OnlyOverruns(w: string)
    ensures !Unescape(w).Got? ==> Unescape(w) == Overrun
    decreases |w|
  {
    if w != "" && w[0] != '"' {
      var one := if w[0] == '\\' then ParseEscape(w) else Got([w[0]], w[1..]);
      if one.Got? {
        OnlyOverruns(one.rest);
      }
    }
  }

  lemma CopyEnds(u: string, len: nat, rest: string, s: string, t: string, p: nat)
    requires p <= |t| && Copying(u, s, t, p, true) == true && (p < |t| ==> t[p] == '"')
    requires IsCount(u, Got(len, rest)) && |s| <= len
    ensures IsString(u, Got(s, t[if p < |t| then p + 1 else p..]))
  {
    assert LookText(0);
    StringEnds(t[p..], s);
    assert p < |t| ==> t[p..][1..] == t[p + 1..];
  }

  // The two loops. -------------------------------------------------------------------------------

  // The counting loop of parse_string, from its quote at i on.
  method CountString(t: string, i: nat) returns (ok: bool, len: nat, ghost rest: string)
    requires i < |t| && t[i] == '"'
    ensures if ok then IsCount(t[i..], Got(len, rest)) == true else IsString(t[i..], Overrun) == true
  {
    ghost var u := t[i..];
    var p := i + 1;
    ok, len, rest := true, 0, "";
    CountBegins(u, t, i);
    while ok && p < |t| && t[p] != '"'
      invariant i < p && (ok ==> p <= |t|) && Counting(u, len, t, p, ok) == true
      decreases ok, |t| - p
    {
      CountNext(u, len, t, p);
      len := len + 1;
      p := if t[p] == '\\' then p + 2 else p + 1;
      ok := p <= |t|;
    }
    if ok {
      CountEnds(u, len, t, p);
      rest := t[p..];
    } else {
      CountFails(u);
    }
  }

  // What one round of the copying loop writes; e is where it goes on.
  method CopyOne(ghost u: string, ghost s: string, t: string, p: nat) returns (x: string, e: nat, ok: bool)
    requires p < |t| && t[p] != '"' && Copying(u, s, t, p, true) == true
    ensures Copying(u, s + x, t, e, ok) == true
    ensures p <= e <= |t| && (ok ==> p < e)
  {
    x, e, ok := "", p, true;
    if t[p] != '\\' {
      CopyChar(u, s, t, p);
      x, e := [t[p]], p + 1;
    } else {
      var one := ParseEscape(t[p..]);
      CopyEscape(u, s, t, p, one);
      if !one.Got? {
        ok := false;
      } else {
        x, e := one.value, |t| - |one.rest|;
      }
    }
  }

  // The copying loop of parse_string, from its quote at i on, into memory for len characters and
  // a NUL. Not ok are a read behind the text and a write behind the memory.
  method CopyString(t: string, i: nat, len: nat, ghost rest: string) returns (ok: bool, s: string, p: nat)
    requires i < |t| && t[i] == '"' && IsCount(t[i..], Got(len, rest)) == true
    ensures if ok then i < p <= |t| && IsString(t[i..], Got(s, t[if p < |t| then p + 1 else p..])) == true
            else IsString(t[i..], Overrun) == true
  {
    ghost var u := t[i..];
    var out := new char[len + 1];
    var n := 0;
    ghost var done := "";
    ok, s, p := true, "", i + 1;
    CopyBegins(u, t, i);
    while ok && p < |t| && t[p] != '"'
      invariant i < p <= |t| && out.Length == len + 1
      invariant ok ==> n == |done| <= len && done <= out[..] && Copying(u, done, t, p, true) == true
      invariant !ok ==> IsString(u, Overrun) == true
      decreases ok, |t| - p
    {
      var x;
      x, p, ok := CopyOne(u, done, t, p);
      if ok {
        ok, n, done := PutPiece(out, n, x, len, u, done, t, p, rest);
      } else {
        CopyStops(u, done + x, t, p);
      }
    }
    if ok {
      s := Close(out, n, done);
      CopyEnds(u, len, rest, s, t, p);
    }
  }

  // The NUL behind what was copied, and the C string that then stands there.
  method Close(out: array<char>, n: nat, ghost done: string) returns (s: string)
    requires n == |done| < out.Length && done <= out[..]
    modifies out
    ensures s == done && Ends(out[..], s)
  {
    s := out[..n];
    out[n] := NUL;
    assert out[..n] == s;
  }

  lemma CopyStops(u: string, s: string, t: string, p: int)
    requires Copying(u, s, t, p, false) == true
    ensures IsString(u, Overrun)
  {
  }

  // Write what one round gives, if there is room.
  method PutPiece(out: array<char>, n: nat, x: string, len: nat, ghost u: string, ghost done: string, t: string, p: nat,
                  ghost rest: string)
    returns (ok: bool, e: nat, ghost done': string)
    requires out.Length == len + 1 && n == |done| <= len && done <= out[..] && p <= |t|
    requires IsCount(u, Got(len, rest)) == true && Copying(u, done + x, t, p, true) == true
    modifies out
    ensures ok ==> e == |done'| <= len && done' <= out[..] && Copying(u, done', t, p, true) == true
    ensures !ok ==> IsString(u, Overrun) == true
  {
    ok, e, done' := n + |x| <= len, n, done;
    if ok {
      e := Put(out, n, x, done);
      done' := done + x;
    } else {
      TooLong(u, len, rest, done + x, t, p);
    }
  }

  /**
   * parse_string: count, ask for memory, copy. -1 is the null pointer; it also stands for what C
   * does not define, where the result is Overrun.
   */
  method ReadString(t: string, i: nat) returns (s: string, e: int, ghost r: Parsed<string>)
    requires i <= |t|
    ensures IsString(t[i..], r) == true && Reached(r, t, i, e) && (e >= 0 ==> r.value == s)
  {
    s, e, r := "", -1, Fail;
    if i < |t| && t[i] == '"' {
      var ok, len;
      ghost var rest;
      ok, len, rest := CountString(t, i);
      r := Overrun;
      if ok {
        var p;
        ok, s, p := CopyString(t, i, len, rest);
        if ok {
          e := if p < |t| then p + 1 else p;
          r := Got(s, t[e..]);
        }
      }
    }
  }
}
