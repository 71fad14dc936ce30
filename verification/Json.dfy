/**
 * JSON trees, the text cJSON prints for them and the grammar its parser accepts. Texts are
 * sequences of bytes, written as characters below 256, that end where the C string has its NUL.
 */
module Json {
  datatype Json = Null | False | True | Num(n: real) | Str(s: string) | Arr(child: List) | Obj(child: List)

  // The children of an array or object: each node has a name (in objects) and a next node.
  datatype List = End | Node(name: string, value: Json, next: List)

  // What parsing gives: a null pointer, a value and the rest of the text, or, where an escape
  // sequence is not as it should be, a read behind the text or a write behind the copy.
  datatype Parsed<T> = Fail | Overrun | Got(value: T, rest: string)

  function Failed<T, U>(r: Parsed<T>): Parsed<U> {
    if r.Fail? then Fail else Overrun
  }

  // Trees within the scope of the round trip: 32-bit integers and strings without NUL.
  ghost predicate Printable(j: Json) {
    match j
    case Num(n) => IsInt(n)
    case Str(s) => Bytes(s)
    case Arr(l) => PrintableItems(l)
    case Obj(l) => PrintableMembers(l)
    case _ => true
  }

  // The numbers that are printed with %d.
  predicate IsInt(n: real) {
    n == n.Floor as real && -0x8000_0000 <= n.Floor <= 0x7FFF_FFFF
  }

  ghost predicate PrintableItems(l: List) {
    l.Node? ==> l.name == "" && Printable(l.value) && PrintableItems(l.next)
  }

  ghost predicate PrintableMembers(l: List) {
    l.Node? ==> Bytes(l.name) && Printable(l.value) && PrintableMembers(l.next)
  }

  ghost predicate Bytes(s: string) {
    forall i :: 0 <= i < |s| ==> 0 < s[i] as int < 0x100
  }

  // Printing: the text of a value, with k behind it. --------------------------------------------

  function Digit(d: nat): char
    requires d < 16
  {
    if d < 10 then ('0' as int + d) as char else ('a' as int + d - 10) as char
  }

  function DigitsText(n: nat, k: string): string {
    if n < 10 then [Digit(n)] + k else DigitsText(n / 10, [Digit(n % 10)] + k)
  }

  function NumText(n: int, k: string): string {
    if n < 0 then "-" + DigitsText(-n, k) else DigitsText(n, k)
  }

  predicate Plain(c: char) {
    ' ' <= c && c != '"' && c != '\\'
  }

  // One character of a string, escaped if need be.
  function Escaped(c: char): string {
    if Plain(c) then [c]
    else if c == '\\' then "\\\\"
    else if c == '"' then "\\\""
    else if c == 8 as char then "\\b"
    else if c == 12 as char then "\\f"
    else if c == '\n' then "\\n"
    else if c == '\r' then "\\r"
    else if c == '\t' then "\\t"
    else "\\u00" + [Digit(c as int / 16 % 16), Digit(c as int % 16)]
  }

  function EscapedText(s: string, k: string): string {
    if s == "" then k else Escaped(s[0]) + EscapedText(s[1..], k)
  }

  function StringText(s: string, k: string): string {
    "\"" + EscapedText(s, "\"" + k)
  }

  function Tabs(n: int, k: string): string
    decreases n
  {
    if n <= 0 then k else "\t" + Tabs(n - 1, k)
  }

  function Text(j: Json, depth: nat, fmt: bool, k: string): string
    decreases j, 1
  {
    match j
    case Null => "null" + k
    case False => "false" + k
    case True => "true" + k
    case Num(n) => NumText(n.Floor, k)
    case Str(s) => StringText(s, k)
    case Arr(l) => "[" + ItemsText(l, depth, fmt, "]" + k)
    case Obj(l) =>
      if l == End then "{" + if fmt then "\n" + Tabs(depth - 1, "}" + k) else "}" + k
      else if fmt then "{" + "\n" + MembersText(l, depth + 1, fmt, Tabs(depth, "}" + k))
      else "{" + MembersText(l, depth + 1, fmt, "}" + k)
  }

  function ItemsText(l: List, depth: nat, fmt: bool, k: string): string
    decreases l, 0
  {
    if l == End then k
    else Text(l.value, depth + 1, fmt, if l.next == End then k else "," + Spaced(fmt, ItemsText(l.next, depth, fmt, k)))
  }

  function Spaced(fmt: bool, k: string): string {
    if fmt then " " + k else k
  }

  function MembersText(l: List, depth: nat, fmt: bool, k: string): string
    decreases l, 2
  {
    if l == End then k
    else Tabs(if fmt then depth else 0, StringText(l.name, ":" + MemberText(l, depth, fmt, k)))
  }

  // The value of a member, and what follows it.
  function MemberText(l: List, depth: nat, fmt: bool, k: string): string
    requires l.Node?
    decreases l, 1
  {
    var rest := AfterMember(l, depth, fmt, k);
    if fmt then "\t" + Text(l.value, depth, fmt, rest) else Text(l.value, depth, fmt, rest)
  }

  function AfterMember(l: List, depth: nat, fmt: bool, k: string): string
    requires l.Node?
    decreases l, 0
  {
    var after := MembersText(l.next, depth, fmt, k);
    var line := if fmt then "\n" + after else after;
    if l.next == End then line else "," + line
  }

  // Parsing. -----------------------------------------------------------------------------------

  // skip: jump white space.
  function Skip(t: string): (r: string)
    ensures |r| <= |t| && (r != "" ==> r[0] > ' ')
  {
    if t != "" && t[0] <= ' ' then Skip(t[1..]) else t
  }

  predicate IsDigit(c: char) {
    '0' <= c <= '9'
  }

  function DigitValue(c: char): nat {
    if IsDigit(c) then c as int - '0' as int else 0
  }

  // Digits in a row, behind a number that was read so far.
  function Digits(t: string, n: nat): (r: (nat, string))
    ensures |r.1| <= |t|
  {
    if t != "" && IsDigit(t[0]) then Digits(t[1..], n * 10 + DigitValue(t[0])) else (n, t)
  }

  // parse_number, with exact arithmetic.
  function ParseNumber(t: string): (r: Parsed<Json>)
    ensures r.Got? && (t != "" && (t[0] == '-' || IsDigit(t[0])) ==> |r.rest| < |t|)
  {
    if t != "" && t[0] == '-' then
      var (n, w) := Magnitude(t[1..]);
      Scaled(-1, n, w)
    else
      var (n, w) := Magnitude(t);
      Scaled(1, n, w)
  }

  // The fraction and the exponent behind a sign and an integer.
  function Scaled(sign: int, n: nat, w: string): (r: Parsed<Json>)
    ensures r.Got? && |r.rest| <= |w|
  {
    var (m, places, u) := Fraction(n, w);
    var (e, rest) := Exponent(u);
    Got(Num(NumberOf(sign * m, e - places)), rest)
  }

  // The digits behind a decimal point, counted, if there are any.
  function Fraction(n: nat, w: string): (r: (nat, nat, string))
    ensures |r.2| <= |w|
  {
    if 2 <= |w| && w[0] == '.' && IsDigit(w[1]) then
      var (m, u) := Digits(w[1..], n);
      (m, |w| - 1 - |u|, u)
    else (n, 0, w)
  }

  // An exponent, which may lack its digits.
  function Exponent(w: string): (r: (int, string))
    ensures |r.1| <= |w|
  {
    if w == "" || (w[0] != 'e' && w[0] != 'E') then (0, w)
    else if 2 <= |w| && w[1] == '+' then
      var (e, u) := Digits(w[2..], 0);
      (e, u)
    else if 2 <= |w| && w[1] == '-' then
      var (e, u) := Digits(w[2..], 0);
      (-(e as int), u)
    else
      var (e, u) := Digits(w[1..], 0);
      (e, u)
  }

  function Pow10(k: nat): (p: nat)
    ensures 0 < p
  {
    if k == 0 then 1 else 10 * Pow10(k - 1)
  }

  // n times ten to the power of e.
  function NumberOf(n: int, e: int): real {
    if e >= 0 then (n * Pow10(e)) as real else n as real / Pow10(-e) as real
  }

  // The digits of a number without its sign: a zero to skip, and more if they do not begin with one.
  function Magnitude(t: string): (r: (nat, string))
    ensures |r.1| <= |t| && (t != "" && IsDigit(t[0]) ==> |r.1| < |t|)
  {
    var v := if t != "" && t[0] == '0' then t[1..] else t;
    if v != "" && '1' <= v[0] <= '9' then Digits(v[1..], DigitValue(v[0])) else (0, v)
  }

  predicate IsHex(c: char) {
    IsDigit(c) || 'A' <= c <= 'F' || 'a' <= c <= 'f'
  }

  function HexValue(c: char): nat
    requires IsHex(c)
  {
    if IsDigit(c) then c as int - '0' as int
    else if c <= 'F' then c as int - 'A' as int + 10
    else c as int - 'a' as int + 10
  }

  // parse_hex4: 0 if a character is no hexadecimal digit.
  function Hex4(t: string): (h: nat)
    requires 4 <= |t|
    ensures h < 0x1_0000
  {
    if IsHex(t[0]) && IsHex(t[1]) && IsHex(t[2]) && IsHex(t[3]) then
      HexValue(t[0]) * 0x1000 + HexValue(t[1]) * 0x100 + HexValue(t[2]) * 0x10 + HexValue(t[3])
    else 0
  }

  function Byte(x: nat): char
    requires x < 0x100
  {
    x as char
  }

  // The UTF-8 bytes of a code point.
  function Utf8(uc: nat): string
    requires uc < 0x11_0000
  {
    if uc < 0x80 then [Byte(uc)]
    else if uc < 0x800 then [Byte(0xC0 + uc / 0x40), Byte(0x80 + uc % 0x40)]
    else if uc < 0x1_0000 then [Byte(0xE0 + uc / 0x1000), Byte(0x80 + uc / 0x40 % 0x40), Byte(0x80 + uc % 0x40)]
    else [Byte(0xF0 + uc / 0x4_0000), Byte(0x80 + uc / 0x1000 % 0x40), Byte(0x80 + uc / 0x40 % 0x40), Byte(0x80 + uc % 0x40)]
  }

  // What a \u escape at the head of t stands for, and the text behind it. Nothing comes out of
  // one that is invalid; one that is cut off makes the parser read behind the end.
  function ParseUnicode(t: string): (r: Parsed<string>)
    ensures r.Got? ==> |r.rest| < |t|
  {
    if |t| < 6 then Overrun
    else
      var uc := Hex4(t[2..6]);
      if uc == 0 || 0xDC00 <= uc <= 0xDFFF then Got("", t[6..])
      else if 0xD800 <= uc <= 0xDBFF then
        if |t| < 8 || t[6] != '\\' || t[7] != 'u' then Got("", t[6..])
        else if |t| < 12 then Overrun
        else
          var uc2 := Hex4(t[8..12]);
          if uc2 < 0xDC00 || uc2 > 0xDFFF then Got("", t[12..])
          else Got(Utf8(0x1_0000 + (uc % 0x400) * 0x400 + uc2 % 0x400), t[12..])
      else Got(Utf8(uc), t[6..])
  }

  // What the escape at the head of t stands for.
  function ParseEscape(t: string): (r: Parsed<string>)
    requires t != ""
    ensures r.Got? ==> |r.rest| < |t|
  {
    if |t| == 1 then Overrun
    else if t[1] == 'u' then ParseUnicode(t)
    else
      Got([if t[1] == 'b' then 8 as char
           else if t[1] == 'f' then 12 as char
           else if t[1] == 'n' then '\n'
           else if t[1] == 'r' then '\r'
           else if t[1] == 't' then '\t'
           else t[1]], t[2..])
  }

  // The counting loop of parse_string, behind the quote: one for a character or an escape of two.
  // It stops at a quote or at the end of the text; an escape at the end takes it behind that.
  function Counted(t: string): (r: Parsed<nat>)
    ensures r.Got? ==> |r.rest| <= |t|
  {
    if t == "" || t[0] == '"' then Got(0, t)
    else if t[0] == '\\' && |t| == 1 then Overrun
    else
      var more := Counted(if t[0] == '\\' then t[2..] else t[1..]);
      if !more.Got? then Failed(more) else Got(more.value + 1, more.rest)
  }

  // The copying loop of parse_string, behind the quote, up to a quote or the end of the text.
  function Unescape(t: string): (r: Parsed<string>)
    ensures r.Got? ==> |r.rest| <= |t|
    decreases |t|
  {
    if t == "" || t[0] == '"' then Got("", t)
    else
      var one := if t[0] == '\\' then ParseEscape(t) else Got([t[0]], t[1..]);
      if !one.Got? then Failed(one)
      else
        var more := Unescape(one.rest);
        if !more.Got? then Failed(more) else Got(one.value + more.value, more.rest)
  }

  // A string: it is copied into memory for as many characters as were counted. More of them are
  // written behind that memory.
  function ParseString(t: string): (r: Parsed<string>)
    ensures r.Got? ==> |r.rest| < |t|
  {
    if t == "" || t[0] != '"' then Fail
    else
      var len, s := Counted(t[1..]), Unescape(t[1..]);
      if !len.Got? || !s.Got? || |s.value| > len.value then Overrun
      else Got(s.value, if s.rest == "" then "" else s.rest[1..])
  }

  predicate StartsWith(t: string, p: string) {
    |p| <= |t| && t[..|p|] == p
  }

  function ParseValue(t: string): (r: Parsed<Json>)
    ensures r.Got? ==> |r.rest| < |t|
    decreases |t|, 0
  {
    if StartsWith(t, "null") then Got(Null, t[4..])
    else if StartsWith(t, "false") then Got(False, t[5..])
    else if StartsWith(t, "true") then Got(True, t[4..])
    else if t == "" then Fail
    else if t[0] == '"' then
      var s := ParseString(t);
      if !s.Got? then Failed(s) else Got(Str(s.value), s.rest)
    else if t[0] == '-' || IsDigit(t[0]) then ParseNumber(t)
    else if t[0] == '[' then ParseArray(t[1..])
    else if t[0] == '{' then ParseObject(t[1..])
    else Fail
  }

  // An array, behind its bracket.
  function ParseArray(t: string): (r: Parsed<Json>)
    ensures r.Got? ==> |r.rest| < |t|
    decreases |t|, 3
  {
    var u := Skip(t);
    if u != "" && u[0] == ']' then Got(Arr(End), u[1..])
    else
      var l := ParseItems(u);
      if !l.Got? then Failed(l) else Got(Arr(l.value), l.rest)
  }

  // An object, behind its brace.
  function ParseObject(t: string): (r: Parsed<Json>)
    ensures r.Got? ==> |r.rest| < |t|
    decreases |t|, 3
  {
    var u := Skip(t);
    if u != "" && u[0] == '}' then Got(Obj(End), u[1..])
    else
      var l := ParseMembers(u);
      if !l.Got? then Failed(l) else Got(Obj(l.value), l.rest)
  }

  // The items of an array, up to the closing bracket.
  function ParseItems(t: string): (r: Parsed<List>)
    ensures r.Got? ==> |r.rest| < |t|
    decreases |t|, 1
  {
    var v := ParseValue(Skip(t));
    if !v.Got? then Failed(v) else EndOrMore("", v.value, Skip(v.rest), ']')
  }

  // The members of an object, up to the closing brace.
  function ParseMembers(t: string): (r: Parsed<List>)
    ensures r.Got? ==> |r.rest| < |t|
    decreases |t|, 1
  {
    var m := ParseMember(t);
    if !m.Got? then Failed(m) else EndOrMore(m.value.0, m.value.1, Skip(m.rest), '}')
  }

  // A name, a colon and a value.
  function ParseMember(t: string): (r: Parsed<(string, Json)>)
    ensures r.Got? ==> |r.rest| < |t|
    decreases |t|, 0
  {
    var s := ParseString(Skip(t));
    if !s.Got? then Failed(s)
    else
      var u := Skip(s.rest);
      if u == "" || u[0] != ':' then Fail
      else
        var v := ParseValue(Skip(u[1..]));
        if !v.Got? then Failed(v) else Got((s.value, v.value), v.rest)
  }

  // Behind a child: the closing character, or a comma and more children.
  function EndOrMore(name: string, v: Json, u: string, close: char): (r: Parsed<List>)
    ensures r.Got? ==> |r.rest| < |u|
    decreases |u|, 2
  {
    if u != "" && u[0] == ',' then
      var more := if close == ']' then ParseItems(u[1..]) else ParseMembers(u[1..]);
      if !more.Got? then Failed(more) else Got(Node(name, v, more.value), more.rest)
    else if u != "" && u[0] == close then Got(Node(name, v, End), u[1..])
    else Fail
  }

  // Printing, then parsing. --------------------------------------------------------------------

  // What may follow a number without becoming part of it.
  predicate EndsNumber(k: string) {
    k == "" || !(IsDigit(k[0]) || k[0] == '.' || k[0] == 'e' || k[0] == 'E')
  }

  lemma DigitIsDigit(d: nat)
    requires d < 10
    ensures IsDigit(Digit(d)) && DigitValue(Digit(d)) == d && (d > 0 ==> '1' <= Digit(d) <= '9') && Digit(0) == '0'
  {
  }

  // The digits of n > 0, read back from the first one on.
  lemma {:induction false} DigitsBack(n: nat, k: string)
    requires 0 < n
    ensures var t := DigitsText(n, k);
      t != "" && '1' <= t[0] <= '9' && Digits(t[1..], DigitValue(t[0])) == Digits(k, n)
  {
    DigitIsDigit(n % 10);
    var u := [Digit(n % 10)] + k;
    assert u[1..] == k;
    if n >= 10 {
      DigitsBack(n / 10, u);
      assert Digits(u, n / 10) == Digits(k, n / 10 * 10 + n % 10);
    }
  }

  lemma NumberBack(n: int, k: string)
    requires EndsNumber(k)
    ensures var t := NumText(n, k);
      t != "" && (t[0] == '-' || IsDigit(t[0])) && ParseNumber(t) == Got(Num(n as real), k)
  {
    var m: nat := if n < 0 then -n else n;
    var t, u := NumText(n, k), DigitsText(m, k);
    assert n < 0 ==> t[0] == '-' && t[1..] == u;
    if m == 0 {
      assert u == "0" + k && u[1..] == k;
    } else {
      DigitsBack(m, k);
    }
    NothingScaled(if n < 0 then -1 else 1, m, k);
  }

  // An integer without fraction and exponent stands for itself.
  lemma NothingScaled(sign: int, n: nat, k: string)
    requires EndsNumber(k)
    ensures Scaled(sign, n, k) == Got(Num((sign * n) as real), k)
  {
    assert Fraction(n, k) == (n, 0, k) && Exponent(k) == (0, k);
    assert sign * n * Pow10(0) == sign * n;
  }

  lemma HexBack(d: nat)
    requires d < 16
    ensures IsHex(Digit(d)) && HexValue(Digit(d)) == d
  {
  }

  // One escaped character, read back.
  lemma EscapeBack(c: char, k: string)
    requires 0 < c as int < 0x100 && !Plain(c)
    ensures Escaped(c)[0] == '\\' && ParseEscape(Escaped(c) + k) == Got([c], k)
  {
    var e := Escaped(c);
    var t := e + k;
    assert t[|e|..] == k;
    if |e| == 6 {
      var x := c as int;
      HexBack(x / 16 % 16);
      HexBack(x % 16);
      var h := t[2..6];
      assert h[0] == '0' && h[1] == '0' && h[2] == Digit(x / 16 % 16) && h[3] == Digit(x % 16);
      assert Hex4(h) == x;
      assert Utf8(x) == [c];
    }
  }

  /** Unescaping undoes escaping. */
  lemma {:induction false} StringBack(s: string, k: string)
    requires Bytes(s)
    ensures Unescape(EscapedText(s, "\"" + k)) == Got(s, "\"" + k)
  {
    var q := "\"" + k;
    if s != "" {
      var c, rest := s[0], EscapedText(s[1..], q);
      var t := Escaped(c) + rest;
      StringBack(s[1..], k);
      if Plain(c) {
        assert t[0] == c && t[1..] == rest;
      } else {
        EscapeBack(c, rest);
        assert t[0] == '\\';
      }
      assert [c] + s[1..] == s;
    }
  }

  // The count is large enough for what is printed.
  lemma {:induction false} CountBack(s: string, k: string)
    requires Bytes(s)
    ensures var n := Counted(EscapedText(s, "\"" + k)); n.Got? && n.rest == "\"" + k && |s| <= n.value
  {
    if s != "" {
      var e, rest := Escaped(s[0]), EscapedText(s[1..], "\"" + k);
      CountBack(s[1..], k);
      CountOne(s[0], rest);
    }
  }

  lemma CountOne(c: char, k: string)
    requires 0 < c as int < 0x100 && Counted(k).Got?
    ensures var n := Counted(Escaped(c) + k); n.Got? && n.rest == Counted(k).rest && n.value > Counted(k).value
  {
    var t := Escaped(c) + k;
    if Plain(c) {
      assert t[1..] == k;
    } else {
      var tail := Escaped(c)[2..];
      assert t[0] == '\\' && t[2..] == tail + k;
      CountPlain(tail, k);
    }
  }

  // Characters that are neither quotes nor backslashes count one each.
  lemma {:induction false} CountPlain(p: string, k: string)
    requires forall i :: 0 <= i < |p| ==> p[i] != '"' && p[i] != '\\'
    ensures var n, m := Counted(p + k), Counted(k); n.Got? == m.Got? && (m.Got? ==> n == Got(m.value + |p|, m.rest))
  {
    if p == "" {
      assert p + k == k;
    } else {
      assert (p + k)[1..] == p[1..] + k;
      CountPlain(p[1..], k);
    }
  }

  // Printed values begin with a character of their own, so that skip stops there.
  predicate Starts(t: string) {
    t != "" && t[0] > ' ' && t[0] != ']' && t[0] != '}' && t[0] != ','
  }

  lemma {:induction false} DigitsStart(n: nat, k: string)
    ensures DigitsText(n, k) != "" && IsDigit(DigitsText(n, k)[0])
  {
    DigitIsDigit(n % 10);
    if n >= 10 {
      DigitsStart(n / 10, [Digit(n % 10)] + k);
    }
  }

  lemma TextStarts(j: Json, depth: nat, fmt: bool, k: string)
    ensures Starts(Text(j, depth, fmt, k))
  {
    if j.Num? {
      DigitsStart(if j.n.Floor < 0 then -j.n.Floor else j.n.Floor, k);
    }
  }

  // Layout is skipped.
  lemma {:induction false} SkipTabs(n: int, k: string)
    ensures Skip(Tabs(n, k)) == Skip(k)
    decreases n
  {
    if n > 0 {
      assert ("\t" + Tabs(n - 1, k))[1..] == Tabs(n - 1, k);
      SkipTabs(n - 1, k);
    }
  }

  lemma SkipOne(c: char, k: string)
    requires c <= ' '
    ensures Skip([c] + k) == Skip(k)
  {
    assert ([c] + k)[1..] == k;
  }

  lemma Tail(c: char, k: string)
    ensures ([c] + k)[0] == c && ([c] + k)[1..] == k
  {
  }

  lemma Keyword(t: string, w: string, k: string)
    requires t == w + k
    ensures StartsWith(t, w) && t[|w|..] == k
  {
  }

  // A text that begins otherwise is no keyword.
  lemma OtherKeyword(t: string, w: string)
    requires t != "" && w != "" && t[0] != w[0]
    ensures !StartsWith(t, w)
  {
    assert |w| <= |t| ==> t[..|w|][0] == t[0];
  }

  lemma NoKeyword(t: string)
    requires t != "" && t[0] != 'n' && t[0] != 'f' && t[0] != 't'
    ensures !StartsWith(t, "null") && !StartsWith(t, "false") && !StartsWith(t, "true")
  {
    OtherKeyword(t, "null");
    OtherKeyword(t, "false");
    OtherKeyword(t, "true");
  }

  lemma KeywordsBack(k: string)
    ensures ParseValue("null" + k) == Got(Null, k)
    ensures ParseValue("false" + k) == Got(False, k)
    ensures ParseValue("true" + k) == Got(True, k)
  {
    Keyword("null" + k, "null", k);
    Keyword("false" + k, "false", k);
    Keyword("true" + k, "true", k);
    OtherKeyword("false" + k, "null");
    OtherKeyword("true" + k, "null");
    OtherKeyword("true" + k, "false");
  }

  lemma NumBack(n: int, k: string)
    requires EndsNumber(k)
    ensures ParseValue(NumText(n, k)) == Got(Num(n as real), k)
  {
    NumberBack(n, k);
    NoKeyword(NumText(n, k));
  }

  lemma QuotedBack(s: string, k: string)
    requires Bytes(s)
    ensures ParseString(StringText(s, k)) == Got(s, k)
  {
    var q := "\"" + k;
    StringBack(s, k);
    CountBack(s, k);
    Tail('"', EscapedText(s, q));
    assert q[1..] == k;
  }

  lemma StrBack(s: string, k: string)
    requires Bytes(s)
    ensures ParseValue(StringText(s, k)) == Got(Str(s), k)
  {
    QuotedBack(s, k);
    NoKeyword(StringText(s, k));
  }

  /**
   * Printing a tree and parsing the text gives the tree back, formatted or not and at any depth,
   * and leaves what stood behind it.
   */
  lemma {:induction false} RoundTrip(j: Json, depth: nat, fmt: bool, k: string)
    requires Printable(j) && EndsNumber(k)
    ensures ParseValue(Text(j, depth, fmt, k)) == Got(j, k)
    decreases j, 1
  {
    match j {
      case Num(n) => NumBack(n.Floor, k);
      case Str(s) => StrBack(s, k);
      case Arr(l) =>
        ArrayBack(l, depth, fmt, k);
        BracketFirst(Text(j, depth, fmt, k));
      case Obj(l) =>
        ObjectBack(l, depth, fmt, k);
        BracketFirst(Text(j, depth, fmt, k));
      case _ => KeywordsBack(k);
    }
  }

  lemma BracketFirst(t: string)
    requires t != "" && (t[0] == '[' || t[0] == '{')
    ensures ParseValue(t) == if t[0] == '[' then ParseArray(t[1..]) else ParseObject(t[1..])
  {
    NoKeyword(t);
  }

  lemma {:induction false} ArrayBack(l: List, depth: nat, fmt: bool, k: string)
    requires PrintableItems(l) && EndsNumber(k)
    ensures var t := Text(Arr(l), depth, fmt, k); t != "" && t[0] == '[' && ParseArray(t[1..]) == Got(Arr(l), k)
    decreases l, 3
  {
    var close := "]" + k;
    Tail('[', ItemsText(l, depth, fmt, close));
    Tail(']', k);
    if l != End {
      TextStarts(l.value, depth + 1, fmt, if l.next == End then close else "," + Spaced(fmt, ItemsText(l.next, depth, fmt, close)));
      ItemsBack(l, depth, fmt, k);
    }
  }

  lemma {:induction false} ItemsBack(l: List, depth: nat, fmt: bool, k: string)
    requires l != End && PrintableItems(l)
    ensures ParseItems(ItemsText(l, depth, fmt, "]" + k)) == Got(l, k)
    ensures ParseItems(Spaced(fmt, ItemsText(l, depth, fmt, "]" + k))) == Got(l, k)
    decreases l, 2
  {
    var close := "]" + k;
    var more := Spaced(fmt, ItemsText(l.next, depth, fmt, close));
    var rest := if l.next == End then close else "," + more;
    var t := ItemsText(l, depth, fmt, close);
    Tail(']', k);
    Tail(',', more);
    TextStarts(l.value, depth + 1, fmt, rest);
    RoundTrip(l.value, depth + 1, fmt, rest);
    SkipOne(' ', t);
    assert Skip(t) == t && Skip(rest) == rest;
    if l.next != End {
      ItemsBack(l.next, depth, fmt, k);
    }
  }

  lemma {:induction false} ObjectBack(l: List, depth: nat, fmt: bool, k: string)
    requires PrintableMembers(l) && EndsNumber(k)
    ensures var t := Text(Obj(l), depth, fmt, k); t != "" && t[0] == '{' && ParseObject(t[1..]) == Got(Obj(l), k)
    decreases l, 4
  {
    if l == End {
      EmptyObjectBack(depth, fmt, k);
      Tail('}', k);
    } else {
      var last := LastLine(depth, fmt, k);
      LastLineEnds(depth, fmt, k);
      ObjectHead(l, depth, fmt, k);
      MembersBack(l, depth + 1, fmt, last, k);
    }
  }

  // What stands behind the members of an object.
  function LastLine(depth: nat, fmt: bool, k: string): string {
    if fmt then Tabs(depth, "}" + k) else "}" + k
  }

  lemma LastLineEnds(depth: nat, fmt: bool, k: string)
    ensures var last := LastLine(depth, fmt, k); last != "" && EndsNumber(last) && Skip(last) == "}" + k
  {
    var close := "}" + k;
    Tail('}', k);
    SkipTabs(depth, close);
    LastEndsNumber(depth, close);
  }

  lemma ObjectHead(l: List, depth: nat, fmt: bool, k: string)
    requires l != End
    ensures var t := Text(Obj(l), depth, fmt, k);
      t != "" && t[0] == '{' && Skip(t[1..]) == Skip(MembersText(l, depth + 1, fmt, LastLine(depth, fmt, k)))
  {
    var m := MembersText(l, depth + 1, fmt, LastLine(depth, fmt, k));
    Tail('{', m);
    Tail('{', "\n" + m);
    SkipOne('\n', m);
  }

  lemma EmptyObjectBack(depth: nat, fmt: bool, k: string)
    ensures var t := Text(Obj(End), depth, fmt, k); t != "" && t[0] == '{' && Skip(t[1..]) == "}" + k
  {
    var close := "}" + k;
    var t := Tabs(depth - 1, close);
    Tail('}', k);
    Tail('{', "\n" + t);
    Tail('{', close);
    SkipOne('\n', t);
    SkipTabs(depth - 1, close);
  }

  lemma LastEndsNumber(depth: nat, k: string)
    requires k != "" && EndsNumber(k)
    ensures Tabs(depth, k) != "" && EndsNumber(Tabs(depth, k))
  {
  }

  // last is the closing brace, possibly indented.
  lemma {:induction false} MembersBack(l: List, depth: nat, fmt: bool, last: string, k: string)
    requires l != End && PrintableMembers(l) && Skip(last) == "}" + k && last != "" && EndsNumber(last)
    ensures ParseMembers(MembersText(l, depth, fmt, last)) == Got(l, k)
    ensures ParseMembers(Skip(MembersText(l, depth, fmt, last))) == Got(l, k)
    ensures var u := Skip(MembersText(l, depth, fmt, last)); u != "" && u[0] == '"'
    ensures ParseMembers("\n" + MembersText(l, depth, fmt, last)) == Got(l, k)
    decreases l, 3
  {
    var t := MembersText(l, depth, fmt, last);
    var value := MemberText(l, depth, fmt, last);
    var name := StringText(l.name, ":" + value);
    SkipTabs(if fmt then depth else 0, name);
    SkipOne('\n', t);
    assert Skip(name) == name;
    QuotedBack(l.name, ":" + value);
    Tail(':', value);
    MemberBack(l, depth, fmt, last, k);
  }

  // The value of a member and what follows: a comma and more members, or the end.
  lemma {:induction false} MemberBack(l: List, depth: nat, fmt: bool, last: string, k: string)
    requires l != End && PrintableMembers(l) && Skip(last) == "}" + k && last != "" && EndsNumber(last)
    ensures var v := ParseValue(Skip(MemberText(l, depth, fmt, last)));
      v.Got? && v.value == l.value && EndOrMore(l.name, l.value, Skip(v.rest), '}') == Got(l, k)
    decreases l, 2
  {
    var rest := AfterMember(l, depth, fmt, last);
    AfterBack(l, depth, fmt, last, k);
    TextStarts(l.value, depth, fmt, rest);
    SkipOne('\t', Text(l.value, depth, fmt, rest));
    RoundTrip(l.value, depth, fmt, rest);
  }

  lemma {:induction false} AfterBack(l: List, depth: nat, fmt: bool, last: string, k: string)
    requires l != End && PrintableMembers(l) && Skip(last) == "}" + k && last != "" && EndsNumber(last)
    ensures var rest := AfterMember(l, depth, fmt, last);
      EndsNumber(rest) && EndOrMore(l.name, l.value, Skip(rest), '}') == Got(l, k)
    decreases l, 1
  {
    var after := MembersText(l.next, depth, fmt, last);
    var line := if fmt then "\n" + after else after;
    Tail(',', line);
    Tail('}', k);
    SkipOne('\n', after);
    if l.next != End {
      MembersBack(l.next, depth, fmt, last, k);
    }
  }
}
