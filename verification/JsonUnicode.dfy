/**
 * What the escapes of a JSON string stand for: code points, in the UTF-8 encoding of section 3 of
 * RFC 3629, decoded here byte by byte.
 */
module JsonUnicode {
  import opened Json
  import opened JsonString

  // A byte of a sequence behind the first.
  predicate Continues(c: char) {
    0x80 <= c as int < 0xC0
  }

  // The code point at the head of s, and the bytes behind it; -1 if there is none, or if it has a
  // longer sequence than it needs.
  function Decode(s: string): (int, string) {
    if s == "" then (-1, s)
    else
      var b := s[0] as int;
      if b < 0x80 then (b, s[1..])
      else if 0xC0 <= b < 0xE0 && 2 <= |s| && Continues(s[1]) then
        AtLeast(0x80, (b - 0xC0) * 0x40 + Low6(s[1]), s[2..])
      else if 0xE0 <= b < 0xF0 && 3 <= |s| && Continues(s[1]) && Continues(s[2]) then
        AtLeast(0x800, (b - 0xE0) * 0x1000 + Low6(s[1]) * 0x40 + Low6(s[2]), s[3..])
      else if 0xF0 <= b < 0xF8 && 4 <= |s| && Continues(s[1]) && Continues(s[2]) && Continues(s[3]) then
        AtLeast(0x1_0000, (b - 0xF0) * 0x4_0000 + Low6(s[1]) * 0x1000 + Low6(s[2]) * 0x40 + Low6(s[3]), s[4..])
      else (-1, s)
  }

  function Low6(c: char): int {
    c as int - 0x80
  }

  function AtLeast(least: int, uc: int, rest: string): (int, string) {
    (if uc < least then -1 else uc, rest)
  }

  // All code points of s, or none if some byte belongs to no code point.
  function DecodeAll(s: string): (r: seq<int>)
    decreases |s|
  {
    if s == "" then []
    else
      var (uc, rest) := Decode(s);
      if uc < 0 || |rest| >= |s| then [-1] else [uc] + DecodeAll(rest)
  }

  /** The bytes of a code point decode to it. */
  lemma Utf8Back(uc: nat, k: string)
    requires uc < 0x11_0000
    ensures Decode(Utf8(uc) + k) == (uc, k)
  {
    var s := Utf8(uc) + k;
    assert s[|Utf8(uc)|..] == k;
    if 0x80 <= uc < 0x800 {
      TwoBytes(uc, k);
    } else if 0x800 <= uc < 0x1_0000 {
      ThreeBytes(uc, k);
    } else if 0x1_0000 <= uc {
      FourBytes(uc, k);
    }
  }

  lemma TwoBytes(uc: nat, k: string)
    requires 0x80 <= uc < 0x800
    ensures Decode(Utf8(uc) + k) == (uc, k)
  {
    assert (Utf8(uc) + k)[2..] == k;
  }

  lemma ThreeBytes(uc: nat, k: string)
    requires 0x800 <= uc < 0x1_0000
    ensures Decode(Utf8(uc) + k) == (uc, k)
  {
    assert (Utf8(uc) + k)[3..] == k;
    Sixes(uc);
  }

  lemma FourBytes(uc: nat, k: string)
    requires 0x1_0000 <= uc < 0x11_0000
    ensures Decode(Utf8(uc) + k) == (uc, k)
  {
    assert (Utf8(uc) + k)[4..] == k;
    Sixes(uc);
    Sixes(uc / 0x40);
    assert uc / 0x40 / 0x1000 == uc / 0x4_0000;
  }

  lemma Sixes(x: nat)
    ensures x / 0x40 / 0x40 == x / 0x1000 && x / 0x40 == 0x40 * (x / 0x1000) + x / 0x40 % 0x40 && x == 0x40 * (x / 0x40) + x % 0x40
  {
  }

  // Hexadecimal digit d, in either case.
  predicate IsDigitOf(c: char, d: nat) {
    d < 16 && (c == "0123456789abcdef"[d] || c == "0123456789ABCDEF"[d])
  }

  // Four of them.
  predicate Writes(h: string, x: nat) {
    && |h| == 4 && x < 0x1_0000
    && IsDigitOf(h[0], x / 0x1000) && IsDigitOf(h[1], x / 0x100 % 0x10) && IsDigitOf(h[2], x / 0x10 % 0x10) && IsDigitOf(h[3], x % 0x10)
  }

  lemma DigitValueIs(c: char, d: nat)
    requires IsDigitOf(c, d)
    ensures IsHex(c) && HexValue(c) == d && Ordinary(c)
  {
  }

  lemma HexReads(h: string, x: nat)
    requires Writes(h, x)
    ensures Hex4(h) == x && forall i :: 0 <= i < 4 ==> Ordinary(h[i])
  {
    DigitValueIs(h[0], x / 0x1000);
    DigitValueIs(h[1], x / 0x100 % 0x10);
    DigitValueIs(h[2], x / 0x10 % 0x10);
    DigitValueIs(h[3], x % 0x10);
    FourDigits(x);
  }

  lemma FourDigits(x: nat)
    ensures x == x / 0x1000 * 0x1000 + x / 0x100 % 0x10 * 0x100 + x / 0x10 % 0x10 * 0x10 + x % 0x10
  {
    assert x / 0x10 / 0x10 == x / 0x100 && x / 0x100 / 0x10 == x / 0x1000;
  }

  // A piece of a JSON string: a character as it is, an escape of two characters, the escape of a
  // code point below 0x1_0000, and two such escapes for a larger one.
  datatype Piece = Raw(c: char) | Short(c: char) | Code(h: string) | Pair(h: string, l: string)

  // The piece stands for the code point, or byte of one, uc.
  predicate Denotes(p: Piece, uc: nat) {
    match p
    case Raw(c) => Ordinary(c) && c as int == uc
    case Short(c) =>
      || (c == '"' && uc == 0x22) || (c == '\\' && uc == 0x5C) || (c == '/' && uc == 0x2F) || (c == 'b' && uc == 0x08)
      || (c == 'f' && uc == 0x0C) || (c == 'n' && uc == 0x0A) || (c == 'r' && uc == 0x0D) || (c == 't' && uc == 0x09)
    case Code(h) => Writes(h, uc) && uc != 0 && !(0xD800 <= uc <= 0xDFFF)
    case Pair(h, l) =>
      && 0x1_0000 <= uc < 0x11_0000
      && Writes(h, 0xD800 + (uc - 0x1_0000) / 0x400) && Writes(l, 0xDC00 + (uc - 0x1_0000) % 0x400)
  }

  // As it stands in the text.
  function Spelt(p: Piece): string {
    match p
    case Raw(c) => [c]
    case Short(c) => ['\\', c]
    case Code(h) => ['\\', 'u'] + h
    case Pair(h, l) => ['\\', 'u'] + h + ['\\', 'u'] + l
  }

  // The bytes that are to come out.
  function Bytes8(p: Piece, uc: nat): string
    requires Denotes(p, uc)
  {
    if p.Raw? then [p.c] else Utf8(if uc < 0x11_0000 then uc else 0)
  }

  lemma CodeCopied(h: string, uc: nat, k: string)
    requires Denotes(Code(h), uc)
    ensures ParseUnicode(Spelt(Code(h)) + k) == Got(Utf8(uc), k)
  {
    var t := Spelt(Code(h)) + k;
    assert t[2..6] == h && t[6..] == k;
    HexReads(h, uc);
  }

  lemma PairCopied(h: string, l: string, uc: nat, k: string)
    requires Denotes(Pair(h, l), uc)
    ensures ParseUnicode(Spelt(Pair(h, l)) + k) == Got(Utf8(uc), k)
  {
    var a, b := Surrogates(uc);
    HexReads(h, a);
    HexReads(l, b);
    PairSlices(h, l, k);
    PairParsed(Spelt(Pair(h, l)) + k, a, b, uc);
  }

  // The two halves of a code point.
  lemma Surrogates(uc: nat) returns (a: nat, b: nat)
    requires 0x1_0000 <= uc < 0x11_0000
    ensures a == 0xD800 + (uc - 0x1_0000) / 0x400 <= 0xDBFF && b == 0xDC00 + (uc - 0x1_0000) % 0x400 <= 0xDFFF
    ensures uc == 0x1_0000 + (a % 0x400) * 0x400 + b % 0x400
  {
    var x := uc - 0x1_0000;
    a, b := 0xD800 + x / 0x400, 0xDC00 + x % 0x400;
    assert a % 0x400 == x / 0x400 && b % 0x400 == x % 0x400;
    assert x == x / 0x400 * 0x400 + x % 0x400;
  }

  lemma PairSlices(h: string, l: string, k: string)
    requires |h| == |l| == 4
    ensures var t := Spelt(Pair(h, l)) + k; |t| >= 12 && t[2..6] == h && t[8..12] == l && t[12..] == k && t[6] == '\\' && t[7] == 'u'
    ensures Spelt(Pair(h, l)) + k == Spelt(Code(h)) + (Spelt(Code(l)) + k)
  {
    FourParts(['\\', 'u'], h, ['\\', 'u'], l, k);
  }

  lemma FourParts<T>(a: seq<T>, b: seq<T>, c: seq<T>, d: seq<T>, e: seq<T>)
    requires |a| == |c| == 2 && |b| == |d| == 4
    ensures var t := a + b + c + d + e; t[2..6] == b && t[6] == c[0] && t[7] == c[1] && t[8..12] == d && t[12..] == e
    ensures a + b + c + d + e == a + b + (c + d + e)
  {
  }

  lemma PairParsed(t: string, a: nat, b: nat, uc: nat)
    requires |t| >= 12 && t[6] == '\\' && t[7] == 'u' && Hex4(t[2..6]) == a && Hex4(t[8..12]) == b
    requires 0xD800 <= a <= 0xDBFF && 0xDC00 <= b <= 0xDFFF && uc == 0x1_0000 + (a % 0x400) * 0x400 + b % 0x400
    ensures ParseUnicode(t) == Got(Utf8(uc), t[12..])
  {
  }

  // One piece is copied.
  lemma PieceCopied(p: Piece, uc: nat, k: string)
    requires Denotes(p, uc)
    ensures Unescape(Spelt(p) + k) == Onto(Bytes8(p, uc), Unescape(k))
  {
    var t := Spelt(p) + k;
    match p {
      case Raw(c) =>
        assert t[1..] == k;
      case Short(c) =>
        assert t[2..] == k && t[0] == '\\' && t[1] == c;
      case Code(h) =>
        assert t[0] == '\\' && t[1] == 'u';
        CodeCopied(h, uc, k);
      case Pair(h, l) =>
        assert t[0] == '\\' && t[1] == 'u';
        PairCopied(h, l, uc, k);
    }
    UnescapeStep(t);
  }

  lemma PieceProper(p: Piece, uc: nat, k: string)
    requires Denotes(p, uc) && Proper(k)
    ensures Proper(Spelt(p) + k)
  {
    var t := Spelt(p) + k;
    match p {
      case Raw(c) =>
        assert t[1..] == k;
      case Short(c) =>
        assert t[2..] == k && t[0] == '\\' && t[1] == c;
      case Code(h) =>
        CodeProper(h, uc, k);
      case Pair(h, l) =>
        PairProper(h, l, uc, k);
    }
  }

  lemma PairProper(h: string, l: string, uc: nat, k: string)
    requires Denotes(Pair(h, l), uc) && Proper(k)
    ensures Proper(Spelt(Pair(h, l)) + k)
  {
    CodeProper(l, 0xDC00 + (uc - 0x1_0000) % 0x400, k);
    CodeProper(h, 0xD800 + (uc - 0x1_0000) / 0x400, Spelt(Code(l)) + k);
    PairSlices(h, l, k);
  }

  lemma CodeProper(h: string, x: nat, k: string)
    requires Writes(h, x) && Proper(k)
    ensures Proper(Spelt(Code(h)) + k)
  {
    var t := Spelt(Code(h)) + k;
    HexReads(h, x);
    assert t[0] == '\\' && t[1] == 'u' && t[6..] == k;
    assert t[2] == h[0] && t[3] == h[1] && t[4] == h[2] && t[5] == h[3];
  }

  // Pieces one after the other, and k behind them.
  function AllSpelt(ps: seq<Piece>, k: string): string {
    if ps == [] then k else Spelt(ps[0]) + AllSpelt(ps[1..], k)
  }

  ghost predicate AllDenote(ps: seq<Piece>, ucs: seq<nat>) {
    |ps| == |ucs| && forall i :: 0 <= i < |ps| ==> Denotes(ps[i], ucs[i])
  }

  function AllBytes(ps: seq<Piece>, ucs: seq<nat>): string
    requires AllDenote(ps, ucs)
  {
    if ps == [] then "" else Bytes8(ps[0], ucs[0]) + AllBytes(ps[1..], ucs[1..])
  }

  lemma {:induction false} AllCopied(ps: seq<Piece>, ucs: seq<nat>, k: string)
    requires AllDenote(ps, ucs) && Proper(k)
    ensures Unescape(AllSpelt(ps, k)) == Onto(AllBytes(ps, ucs), Unescape(k)) && Proper(AllSpelt(ps, k))
  {
    if ps == [] {
      OntoEmpty(Unescape(k));
    } else {
      var t := AllSpelt(ps[1..], k);
      AllCopied(ps[1..], ucs[1..], k);
      PieceCopied(ps[0], ucs[0], t);
      PieceProper(ps[0], ucs[0], t);
      OntoMore(Bytes8(ps[0], ucs[0]), AllBytes(ps[1..], ucs[1..]), Unescape(k));
    }
  }

  /**
   * Every string of plain characters and escapes is read, however its escapes are written: what
   * comes out are the bytes of its pieces.
   */
  lemma StringReads(ps: seq<Piece>, ucs: seq<nat>, k: string)
    requires AllDenote(ps, ucs)
    ensures var t := "\"" + AllSpelt(ps, "\"" + k);
      ParseString(t) == Got(AllBytes(ps, ucs), k) && ParseValue(t) == Got(Str(AllBytes(ps, ucs)), k)
  {
    var q := "\"" + k;
    var u := AllSpelt(ps, q);
    var t := "\"" + u;
    assert t[1..] == u && q[1..] == k;
    AllCopied(ps, ucs, q);
    StringEnds(q, AllBytes(ps, ucs));
    ProperParses(t);
    NoKeyword(t);
  }

  /** And these decode to the code points that were meant, where plain characters are ASCII. */
  lemma {:induction false} BytesDecode(ps: seq<Piece>, ucs: seq<nat>)
    requires AllDenote(ps, ucs) && forall i :: 0 <= i < |ps| && ps[i].Raw? ==> ucs[i] < 0x80
    ensures DecodeAll(AllBytes(ps, ucs)) == ucs
  {
    if ps != [] {
      var rest := AllBytes(ps[1..], ucs[1..]);
      BytesDecode(ps[1..], ucs[1..]);
      PieceDecodes(ps[0], ucs[0], rest);
      DecodeNext(Bytes8(ps[0], ucs[0]) + rest, ucs[0], rest);
      assert ucs == [ucs[0]] + ucs[1..];
    }
  }

  lemma PieceDecodes(p: Piece, uc: nat, k: string)
    requires Denotes(p, uc) && (p.Raw? ==> uc < 0x80)
    ensures Decode(Bytes8(p, uc) + k) == (uc, k) && Bytes8(p, uc) != ""
  {
    if p.Raw? {
      assert ([p.c] + k)[1..] == k;
    } else {
      Utf8Back(uc, k);
    }
  }

  lemma DecodeNext(s: string, uc: nat, k: string)
    requires Decode(s) == (uc, k) && |k| < |s|
    ensures DecodeAll(s) == [uc] + DecodeAll(k)
  {
  }

  /** An e with an acute accent is the bytes C3 A9, in either case of its digits. */
  lemma AcuteReads()
    ensures ParseValue("\"\\u00e9\"") == Got(Str([0xC3 as char, 0xA9 as char]), "")
    ensures ParseValue("\"\\u00E9\"") == Got(Str([0xC3 as char, 0xA9 as char]), "")
  {
    AcuteDigits();
    OneCode("00e9", 0xE9);
    OneCode("00E9", 0xE9);
    AcuteTexts();
  }

  lemma AcuteDigits()
    ensures Writes("00e9", 0xE9) && Writes("00E9", 0xE9) && Utf8(0xE9) == [0xC3 as char, 0xA9 as char]
  {
  }

  lemma AcuteTexts()
    ensures "\"" + Spelt(Code("00e9")) + "\"" == "\"\\u00e9\"" && "\"" + Spelt(Code("00E9")) + "\"" == "\"\\u00E9\""
  {
  }

  lemma OneCode(h: string, uc: nat)
    requires Denotes(Code(h), uc)
    ensures ParseValue("\"" + Spelt(Code(h)) + "\"") == Got(Str(Utf8(uc)), "")
  {
    var p := [Code(h)];
    StringReads(p, [uc], "");
    assert AllBytes(p, [uc]) == Utf8(uc) + "" == Utf8(uc);
    assert "\"" + "" == "\"" && AllSpelt(p, "\"") == Spelt(Code(h)) + "\"";
    assert "\"" + (Spelt(Code(h)) + "\"") == "\"" + Spelt(Code(h)) + "\"";
  }
}
