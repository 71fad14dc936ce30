/**
 * Base64 with line feeds (section 5.2 of RFC 1341): an encoder that writes into memory of
 * computed size, and a decoder that skips what is not in its table.
 */
module Base64 {
  import opened Basics
  import opened CString
  import opened Types

  const INT_MAX := 0x7FFF_FFFF

  // The value in dtable of a character without one.
  const NO_VALUE := 0x80

  // base64_table.
  function Char64(v: nat): char
    requires v < 64
  {
    if v < 26 then ('A' as int + v) as char
    else if v < 52 then ('a' as int + v - 26) as char
    else if v < 62 then ('0' as int + v - 52) as char
    else if v == 62 then '+'
    else '/'
  }

  // dtable.
  function Val64(c: char): (v: nat)
    ensures v < 64 || v == NO_VALUE
  {
    if 'A' <= c <= 'Z' then c as int - 'A' as int
    else if 'a' <= c <= 'z' then c as int - 'a' as int + 26
    else if '0' <= c <= '9' then c as int - '0' as int + 52
    else if c == '+' then 62
    else if c == '/' then 63
    else if c == '=' then 0
    else NO_VALUE
  }

  lemma ValOfChar(v: nat)
    requires v < 64
    ensures Val64(Char64(v)) == v && Char64(v) != '='
  {
  }

  // The alphabet, in order.
  const TABLE := "ABCDEFGHIJKLMNOPQRSTUVWXYZ" + "abcdefghijklmnopqrstuvwxyz" + "0123456789" + "+/"

  /** The characters are those of the alphabet, and their values the places in it. */
  lemma TableIs(v: nat)
    requires v < 64
    ensures |TABLE| == 64 && Char64(v) == TABLE[v]
  {
    if v < 26 {
      assert TABLE[v] == "ABCDEFGHIJKLMNOPQRSTUVWXYZ"[v];
    } else if v < 52 {
      assert TABLE[v] == "abcdefghijklmnopqrstuvwxyz"[v - 26];
    } else if v < 62 {
      assert TABLE[v] == "0123456789"[v - 52];
    }
  }

  /** Any other character but the padding has no value. */
  lemma ValueIs(c: char)
    ensures Val64(c) == NO_VALUE <==> c != '=' && c !in TABLE
    ensures Val64(c) < 64 && c != '=' ==> TABLE[Val64(c)] == c
  {
    if Val64(c) < 64 && c != '=' {
      assert Char64(Val64(c)) == c;
      TableIs(Val64(c));
    } else if c in TABLE {
      var v :| 0 <= v < |TABLE| && TABLE[v] == c;
      TableIs(v);
      ValOfChar(v);
    }
  }

  // Encoding. ------------------------------------------------------------------------------------

  // The characters of three bytes.
  function Four(a: byte, b: byte, c: byte): string {
    [Char64(a / 4), Char64(a % 4 * 16 + b / 16), Char64(b % 16 * 4 + c / 64), Char64(c % 64)]
  }

  // The characters of one or two bytes at the end.
  function Padded(src: seq<byte>): (s: string)
    requires 1 <= |src| <= 2
    ensures |s| == 4
  {
    if |src| == 1 then [Char64(src[0] / 4), Char64(src[0] % 4 * 16), '=', '=']
    else [Char64(src[0] / 4), Char64(src[0] % 4 * 16 + src[1] / 16), Char64(src[1] % 16 * 4), '=']
  }

  /** Four characters are the 24 bits of three bytes, six at a time, the highest first. */
  lemma FourAreBits(a: byte, b: byte, c: byte)
    ensures var f := Four(a, b, c);
      Val64(f[0]) * 0x4_0000 + Val64(f[1]) * 0x1000 + Val64(f[2]) * 0x40 + Val64(f[3])
        == a as int * 0x1_0000 + b as int * 0x100 + c as int
  {
    ValOfChar(a / 4);
    ValOfChar(a % 4 * 16 + b / 16);
    ValOfChar(b % 16 * 4 + c / 64);
    ValOfChar(c % 64);
    assert a == a / 4 * 4 + a % 4 && b == b / 16 * 16 + b % 16 && c == c / 64 * 64 + c % 64;
  }

  /** Padding stands for bytes of zero that are not there. */
  lemma PaddedAreBits(src: seq<byte>)
    requires 1 <= |src| <= 2
    ensures var f, g := Padded(src), Four(src[0], if |src| == 1 then 0 else src[1], 0);
      f[..|src| + 1] == g[..|src| + 1] && f[|src| + 1..] == seq(3 - |src|, _ => '=')
  {
  }

  // What the encoder writes for the bytes left, n characters into a line.
  function Encoded(src: seq<byte>, n: nat): string {
    if |src| >= 3 then
      Four(src[0], src[1], src[2])
      + if n + 4 >= 72 then "\n" + Encoded(src[3..], 0) else Encoded(src[3..], n + 4)
    else if |src| > 0 then Padded(src) + "\n"
    else if n > 0 then "\n"
    else ""
  }

  // Lines of text, with n characters before it: each has 72 characters, but for the last, which
  // may have fewer, and each ends with a line feed.
  ghost predicate Lined(t: string, n: nat) {
    if t == "" then n == 0
    else if t[0] != '\n' then n < 72 && Lined(t[1..], n + 1)
    else if |t| == 1 then 0 < n <= 72
    else n == 72 && Lined(t[1..], 0)
  }

  lemma {:induction false} LinedMore(a: string, t: string, n: nat)
    requires n + |a| <= 72 && (forall i :: 0 <= i < |a| ==> a[i] != '\n') && Lined(t, n + |a|)
    ensures Lined(a + t, n)
  {
    if a == "" {
      assert a + t == t;
    } else {
      assert (a + t)[1..] == a[1..] + t;
      LinedMore(a[1..], t, n + 1);
    }
  }

  /** The encoder breaks its lines after 72 characters, and ends the last one. */
  lemma {:induction false} EncodedIsLined(src: seq<byte>, n: nat)
    requires n < 72 && n % 4 == 0
    ensures Lined(Encoded(src, n), n)
    decreases |src|
  {
    if |src| >= 3 {
      var f := Four(src[0], src[1], src[2]);
      if n + 4 >= 72 {
        var rest := Encoded(src[3..], 0);
        EncodedIsLined(src[3..], 0);
        assert ("\n" + rest)[1..] == rest;
        LinedMore(f, "\n" + rest, n);
        assert f + "\n" + rest == f + ("\n" + rest);
      } else {
        EncodedIsLined(src[3..], n + 4);
        LinedMore(f, Encoded(src[3..], n + 4), n);
      }
    } else if |src| > 0 {
      LinedMore(Padded(src), "\n", n);
    }
  }

  /** Three bytes, and one. */
  lemma SampleTexts()
    ensures Encoded([0x4D, 0x61, 0x6E], 0) == "TWFu\n" && Encoded([0x4D], 0) == "TQ==\n"
  {
    assert Encoded([], 4) == "\n";
  }

  // The size base64_encode allocates.
  function Olen(len: nat): nat {
    len * 4 / 3 + 4 + (len * 4 / 3 + 4) / 72 + 1
  }

  // At most four characters for every three bytes begun, and a line feed for every line begun.
  lemma {:induction false} EncodedLength(src: seq<byte>, n: nat)
    requires n < 72 && n % 4 == 0
    ensures |Encoded(src, n)| <= 4 * ((|src| + 2) / 3) + (n + 4 * (|src| / 3)) / 72 + 1
    decreases |src|
  {
    if |src| >= 3 {
      var n' := if n + 4 >= 72 then 0 else n + 4;
      EncodedLength(src[3..], n');
      assert |src[3..]| / 3 == |src| / 3 - 1 && (|src[3..]| + 2) / 3 == (|src| + 2) / 3 - 1;
    }
  }

  lemma Lines(len: nat)
    ensures 4 * ((len + 2) / 3) + 4 * (len / 3) / 72 + 1 < Olen(len)
  {
    var g, r := len / 3, len % 3;
    var e := len * 4 / 3 + 4;
    assert len * 4 == 3 * (4 * g) + 4 * r;
    assert e == 4 * g + 4 * r / 3 + 4;
    if r == 0 {
      assert (len + 2) / 3 == g;
    } else {
      assert (len + 2) / 3 == g + 1;
    }
    assert 4 * g / 72 <= e / 72;
  }

  /** The text and its NUL fit into the memory allocated. */
  lemma EncodedFits(src: seq<byte>)
    ensures |Encoded(src, 0)| < Olen(|src|)
  {
    EncodedLength(src, 0);
    Lines(|src|);
  }

  // base64_encode.
  method Encode(src: seq<byte>) returns (text: string)
    requires 4 * |src| <= INT_MAX
    ensures text == Encoded(src, 0) && |text| < Olen(|src|)
  {
    EncodedFits(src);
    var out := new char[Olen(|src|)];
    ghost var whole, t := Encoded(src, 0), "";
    var pos, i, line := 0, 0, 0;
    assert src[0..] == src;
    while |src| - i >= 3
      invariant i <= |src| && pos == |t| && t <= out[..] && whole == t + Encoded(src[i..], line)
    {
      ghost var left := src[i..];
      var four := Four(src[i], src[i + 1], src[i + 2]);
      assert left[3..] == src[i + 3..];
      pos, t := PutLine(out, pos, four, line + 4 >= 72, Encoded(left[3..], if line + 4 >= 72 then 0 else line + 4), whole, t);
      i := i + 3;
      line := if line + 4 >= 72 then 0 else line + 4;
    }
    if i < |src| {
      pos, t := PutLine(out, pos, Padded(src[i..]), false, "\n", whole, t);
      line := line + 4;
    }
    if line > 0 {
      pos := Put(out, pos, "\n", t);
      t := t + "\n";
    }
    assert t == whole;
    out[pos] := 0 as char;
    text := out[..pos];
  }

  // Four characters, and a line feed at the end of a line; rest follows.
  method PutLine(out: array<char>, pos: nat, four: string, feed: bool, ghost rest: string, ghost whole: string, ghost t: string)
    returns (e: nat, ghost t': string)
    requires pos == |t| && t <= out[..] && |whole| < out.Length
    requires whole == t + (four + if feed then "\n" + rest else rest)
    modifies out
    ensures e == |t'| && t' <= out[..] && whole == t' + rest
  {
    e := Put(out, pos, four, t);
    t' := t + four;
    assert t + (four + rest) == t' + rest && t + (four + ("\n" + rest)) == t' + "\n" + rest;
    if feed {
      e := Put(out, e, "\n", t');
      t' := t' + "\n";
    }
  }

  // Decoding. ------------------------------------------------------------------------------------

  // The characters that are in the table.
  function Kept(s: string): (k: string)
    ensures |k| <= |s|
  {
    if s == "" then "" else if Val64(s[0]) == NO_VALUE then Kept(s[1..]) else [s[0]] + Kept(s[1..])
  }

  // The bytes of four characters with these values.
  function Three(a: nat, b: nat, c: nat, d: nat): seq<byte> {
    [(a * 4 + b / 16) % 256, (b * 16 + c / 4) % 256, (c * 64 + d) % 256]
  }

  function Groups(k: string): (b: seq<byte>)
    ensures |b| == |k| / 4 * 3
  {
    if |k| < 4 then []
    else Three(Val64(k[0]), Val64(k[1]), Val64(k[2]), Val64(k[3])) + Groups(k[4..])
  }

  // How many bytes the padding takes off.
  function Padding(k: string): nat {
    if |k| < 4 then 0 else if k[|k| - 2] == '=' then 2 else if k[|k| - 1] == '=' then 1 else 0
  }

  // base64_decode as a function: no bytes unless the characters come in groups of four.
  function Decoded(s: string): Option<seq<byte>> {
    var k := Kept(s);
    if |k| % 4 != 0 then None else Some(Groups(k)[..|Groups(k)| - Padding(k)])
  }

  // The first loop of base64_decode.
  method CountKept(src: string) returns (count: nat)
    ensures count == |Kept(src)|
  {
    count := 0;
    assert src[0..] == src;
    for i := 0 to |src|
      invariant count + |Kept(src[i..])| == |Kept(src)|
    {
      assert src[i..][1..] == src[i + 1..];
      if Val64(src[i]) != NO_VALUE {
        count := count + 1;
      }
    }
    assert src[|src|..] == "";
  }

  // A group is complete: its three bytes are written.
  method PutThree(out: array<byte>, pos: nat, block: array<byte>, ghost t: seq<byte>)
    requires block.Length == 4 && block != out && pos == |t| && t <= out[..] && pos + 3 <= out.Length
    modifies out
    ensures t + Three(block[0], block[1], block[2], block[3]) <= out[..]
  {
    ghost var was := out[..];
    var a: nat, b: nat, c: nat, d: nat := block[0], block[1], block[2], block[3];
    out[pos] := (a * 4 + b / 16) % 256;
    out[pos + 1] := (b * 16 + c / 4) % 256;
    out[pos + 2] := (c * 64 + d) % 256;
    ghost var now := out[..];
    ghost var u := t + Three(block[0], block[1], block[2], block[3]);
    forall k | 0 <= k < |u| ensures now[k] == u[k] {
      assert k < pos ==> now[k] == was[k];
    }
  }

  // The last characters, and their values, are in the two blocks.
  ghost predicate Holds(cs: string, vs: seq<byte>, count: nat, k: string, m: nat) {
    && |cs| == |vs| == 4 && count <= 4 && count <= m <= |k|
    && forall i :: 0 <= i < count ==> cs[i] == k[m - count + i] && vs[i] == Val64(k[m - count + i])
  }

  // (Behind a key: see README.)
  ghost predicate LookGroup(q: int) {
    true
  }

  // The bytes of the first j characters are t.
  ghost predicate Done(k: string, j: nat, t: seq<byte>) {
    forall q :: LookGroup(q) ==> j <= |k| && Groups(k) == t + Groups(k[j..])
  }

  // m characters of k were taken; the bytes of those before the last count ones are t.
  ghost predicate Taken(cs: string, vs: seq<byte>, count: nat, k: string, m: nat, t: seq<byte>) {
    && Holds(cs, vs, count, k, m) && count == m % 4 && Done(k, m - count, t) == true
    && (m > 0 && count == 0 ==> cs[2] == k[m - 2] && cs[3] == k[m - 1])
  }

  // One character of the second loop of base64_decode.
  method TakeOne(c: char, tmp: byte, out: array<byte>, pos: nat, cs: array<char>, vs: array<byte>, count: nat,
                 ghost k: string, ghost m: nat, ghost t: seq<byte>)
    returns (pos': nat, count': nat, ghost t': seq<byte>)
    requires Taken(cs[..], vs[..], count, k, m, t) && m < |k| == out.Length && c == k[m] && tmp == Val64(c) && count < 4
    requires pos == |t| && t <= out[..] && vs != out
    modifies out, cs, vs
    ensures Taken(cs[..], vs[..], count', k, m + 1, t') == true && count' < 4
    ensures pos' == |t'| && t' <= out[..]
  {
    cs[count] := c;
    vs[count] := tmp;
    pos', count', t' := pos, count + 1, t;
    if count' == 4 {
      ghost var v := vs[..];
      GroupTaken(cs[..], v, k, m + 1, t);
      PutThree(out, pos, vs, t);
      pos', count', t' := pos + 3, 0, t + Three(v[0], v[1], v[2], v[3]);
    } else {
      CharTaken(cs[..], vs[..], count', k, m + 1, t);
    }
  }

  lemma CharTaken(cs: string, vs: seq<byte>, count: nat, k: string, m: nat, t: seq<byte>)
    requires 0 < count < 4 && Holds(cs, vs, count, k, m) && count - 1 == (m - 1) % 4
    requires Done(k, m - count, t) == true
    ensures Taken(cs, vs, count, k, m, t)
  {
  }

  // A complete group moves its bytes to those done.
  lemma GroupTaken(cs: string, vs: seq<byte>, k: string, m: nat, t: seq<byte>)
    requires Holds(cs, vs, 4, k, m) && (m - 1) % 4 == 3 && Done(k, m - 4, t) == true
    ensures Taken(cs, vs, 0, k, m, t + Three(vs[0], vs[1], vs[2], vs[3])) && |t| + 3 <= |k|
  {
    GroupDone(vs, k, m, t);
    assert cs[2] == k[m - 4 + 2] && cs[3] == k[m - 4 + 3];
  }

  lemma GroupDone(vs: seq<byte>, k: string, m: nat, t: seq<byte>)
    requires |vs| == 4 && 4 <= m <= |k| && Done(k, m - 4, t)
    requires forall i :: 0 <= i < 4 ==> vs[i] == Val64(k[m - 4 + i])
    ensures Done(k, m, t + Three(vs[0], vs[1], vs[2], vs[3])) && |t| + 3 <= |k|
  {
    assert LookGroup(0);
    var f, rest := k[m - 4..m], k[m..];
    assert k[m - 4..] == f + rest;
    SameGroup(vs, k, m, f);
    FirstGroup(f, rest);
    Assoc(t, Values(f), Groups(rest));
  }

  lemma SameGroup(vs: seq<byte>, k: string, m: nat, f: string)
    requires |vs| == 4 && 4 <= m <= |k| && f == k[m - 4..m]
    requires forall i :: 0 <= i < 4 ==> vs[i] == Val64(k[m - 4 + i])
    ensures Values(f) == Three(vs[0], vs[1], vs[2], vs[3])
  {
    assert f[0] == k[m - 4] && f[1] == k[m - 4 + 1] && f[2] == k[m - 4 + 2] && f[3] == k[m - 4 + 3];
  }

  // The bytes of four characters.
  function Values(f: string): seq<byte>
    requires |f| == 4
  {
    Three(Val64(f[0]), Val64(f[1]), Val64(f[2]), Val64(f[3]))
  }

  lemma FirstGroup(f: string, rest: string)
    requires |f| == 4
    ensures Groups(f + rest) == Values(f) + Groups(rest)
  {
    assert (f + rest)[4..] == rest;
  }

  // The second loop of base64_decode.
  method DecodeAll(src: string, out: array<byte>, cs: array<char>) returns (pos: nat)
    requires out.Length == |Kept(src)| && |Kept(src)| % 4 == 0 && cs.Length == 4
    modifies out, cs
    ensures pos <= out.Length && out[..pos] == Groups(Kept(src))
    ensures Kept(src) != "" ==> cs[2] == Kept(src)[|Kept(src)| - 2] && cs[3] == Kept(src)[|Kept(src)| - 1]
  {
    ghost var k, m, t := Kept(src), 0, [];
    var vs := new byte[4];
    var count := 0;
    pos := 0;
    assert src[0..] == src && k[0..] == k;
    NoneDone(k);
    for i := 0 to |src|
      invariant m <= |k| && Kept(src[i..]) == k[m..] && count < 4
      invariant Taken(cs[..], vs[..], count, k, m, t) == true && pos == |t| && t <= out[..]
    {
      assert src[i..][1..] == src[i + 1..];
      var tmp := Val64(src[i]);
      if tmp != NO_VALUE {
        assert k[m..][0] == src[i] && k[m..][1..] == k[m + 1..];
        pos, count, t := TakeOne(src[i], tmp, out, pos, cs, vs, count, k, m, t);
        m := m + 1;
      }
    }
    assert src[|src|..] == "" && m == |k|;
    AllDone(k, t);
  }

  lemma AllDone(k: string, t: seq<byte>)
    requires Done(k, |k|, t)
    ensures t == Groups(k)
  {
    assert LookGroup(0);
    assert k[|k|..] == "" && t + [] == t;
  }

  lemma NoneDone(k: string)
    ensures Done(k, 0, [])
  {
    assert k[0..] == k && [] + Groups(k) == Groups(k);
  }

  // base64_decode.
  method Decode(src: string) returns (bytes: Option<seq<byte>>)
    ensures bytes == Decoded(src)
  {
    var count := CountKept(src);
    if count % 4 != 0 {
      bytes := None;
    } else {
      var out, cs := new byte[count], new char[4];
      var pos := DecodeAll(src, out, cs);
      ghost var b := out[..pos];
      if pos > 0 {
        if cs[2] == '=' {
          pos := pos - 2;
        } else if cs[3] == '=' {
          pos := pos - 1;
        }
      }
      assert out[..pos] == b[..pos];
      bytes := Some(out[..pos]);
    }
  }

  // Encoding, then decoding. ---------------------------------------------------------------------

  // The encoding without line feeds.
  function Plain(src: seq<byte>): string {
    if |src| >= 3 then Four(src[0], src[1], src[2]) + Plain(src[3..])
    else if |src| > 0 then Padded(src)
    else ""
  }

  // Characters that are all in the table are kept.
  lemma {:induction false} KeptAll(a: string, b: string)
    requires forall i :: 0 <= i < |a| ==> Val64(a[i]) != NO_VALUE
    ensures Kept(a + b) == a + Kept(b)
  {
    if a == "" {
      assert a + b == b;
    } else {
      var rest := a[1..];
      forall i | 0 <= i < |rest| ensures Val64(rest[i]) != NO_VALUE {
        assert rest[i] == a[i + 1];
      }
      KeptAll(rest, b);
      assert (a + b)[1..] == rest + b && [a[0]] + rest == a;
      assert [a[0]] + (rest + Kept(b)) == [a[0]] + rest + Kept(b);
    }
  }

  lemma FourInTable(a: byte, b: byte, c: byte)
    ensures forall i :: 0 <= i < 4 ==> Val64(Four(a, b, c)[i]) != NO_VALUE
  {
    ValOfChar(a / 4);
    ValOfChar(a % 4 * 16 + b / 16);
    ValOfChar(b % 16 * 4 + c / 64);
    ValOfChar(c % 64);
  }

  lemma PaddedInTable(src: seq<byte>)
    requires 1 <= |src| <= 2
    ensures forall i :: 0 <= i < 4 ==> Val64(Padded(src)[i]) != NO_VALUE
  {
    ValOfChar(src[0] / 4);
    if |src| == 1 {
      ValOfChar(src[0] % 4 * 16);
    } else {
      ValOfChar(src[0] % 4 * 16 + src[1] / 16);
      ValOfChar(src[1] % 16 * 4);
    }
  }

  // The decoder skips exactly the line feeds.
  lemma {:induction false} KeptEncoded(src: seq<byte>, n: nat)
    ensures Kept(Encoded(src, n)) == Plain(src)
    decreases |src|
  {
    assert Kept("\n") == "" by {
      assert "\n"[1..] == "";
    }
    if |src| >= 3 {
      var n' := if n + 4 >= 72 then 0 else n + 4;
      var rest := Encoded(src[3..], n');
      FourInTable(src[0], src[1], src[2]);
      KeptEncoded(src[3..], n');
      assert ("\n" + rest)[1..] == rest;
      KeptAll(Four(src[0], src[1], src[2]), if n + 4 >= 72 then "\n" + rest else rest);
    } else if |src| > 0 {
      PaddedInTable(src);
      KeptAll(Padded(src), "\n");
    }
  }

  // Taking the bits of the bytes apart and putting them together again.
  lemma FirstByte(a: byte, b: byte)
    ensures (a / 4 * 4 + (a % 4 * 16 + b / 16) / 16) % 256 == a
  {
    assert (a % 4 * 16 + b / 16) / 16 == a % 4;
  }

  lemma SecondByte(x: nat, b: byte, c: byte)
    ensures ((x * 16 + b / 16) * 16 + (b % 16 * 4 + c / 64) / 4) % 256 == b
  {
    assert (b % 16 * 4 + c / 64) / 4 == b % 16;
    assert (x * 16 + b / 16) * 16 + b % 16 == 256 * x + b;
  }

  lemma ThirdByte(y: nat, c: byte)
    ensures ((y * 4 + c / 64) * 64 + c % 64) % 256 == c
  {
    assert (y * 4 + c / 64) * 64 + c % 64 == 256 * y + c;
  }

  // Four characters give back the three bytes.
  lemma ThreeOfFour(a: byte, b: byte, c: byte)
    ensures Values(Four(a, b, c)) == [a, b, c]
  {
    ValOfChar(a / 4);
    ValOfChar(a % 4 * 16 + b / 16);
    ValOfChar(b % 16 * 4 + c / 64);
    ValOfChar(c % 64);
    FirstByte(a, b);
    SecondByte(a % 4, b, c);
    ThirdByte(b % 16, c);
  }

  // How many bytes of the last group are padding.
  function Short(src: seq<byte>): nat {
    (3 - |src| % 3) % 3
  }

  // The groups give back the bytes, and then the padding.
  lemma {:induction false} GroupsOfPlain(src: seq<byte>)
    ensures |Plain(src)| % 4 == 0 && |Groups(Plain(src))| == |src| + Short(src)
    ensures src <= Groups(Plain(src)) && Padding(Plain(src)) == Short(src)
  {
    if |src| >= 3 {
      assert Plain(src) == Four(src[0], src[1], src[2]) + Plain(src[3..]);
      GroupsOfPlain(src[3..]);
      ThreeOfFour(src[0], src[1], src[2]);
      PaddingOfFour(src[0], src[1], src[2]);
      OneMoreGroup(Four(src[0], src[1], src[2]), Plain(src[3..]), src, src[3..]);
    } else if |src| > 0 {
      GroupsOfLast(src);
    }
  }

  lemma GroupsOfLast(src: seq<byte>)
    requires 1 <= |src| <= 2
    ensures var k := Padded(src); |k| == 4 && |Groups(k)| == 3 && src <= Groups(k) && Padding(k) == 3 - |src| == Short(src)
  {
    FirstGroup(Padded(src), "");
    assert Padded(src) + "" == Padded(src);
    LastGroup(src);
  }

  lemma OneMoreGroup(f: string, k: string, src: seq<byte>, rest: seq<byte>)
    requires |f| == 4 && |src| >= 3 && rest == src[3..] && Values(f) == src[..3] && Padding(f) == 0
    requires |k| % 4 == 0 && |Groups(k)| == |rest| + Short(rest) && rest <= Groups(k) && Padding(k) == Short(rest)
    requires rest == [] ==> k == ""
    ensures var g := Groups(f + k); |g| == |src| + Short(src) && src <= g && Padding(f + k) == Short(src)
  {
    FirstGroup(f, k);
    PaddingBehind(f, k);
    ThreeMore(|rest|);
    StartsWith(src, rest, Groups(k));
  }

  lemma ThreeMore(n: nat)
    ensures (3 - (n + 3) % 3) % 3 == (3 - n % 3) % 3
  {
  }

  lemma StartsWith(src: seq<byte>, rest: seq<byte>, g: seq<byte>)
    requires |src| >= 3 && rest == src[3..] && rest <= g
    ensures src <= src[..3] + g
  {
    assert src == src[..3] + rest;
  }

  lemma PaddingBehind(f: string, rest: string)
    requires |f| == 4 && (rest == "" || 4 <= |rest|)
    ensures Padding(f + rest) == if rest == "" then Padding(f) else Padding(rest)
  {
    assert rest == "" ==> f + rest == f;
  }

  lemma PaddingOfFour(a: byte, b: byte, c: byte)
    ensures Padding(Four(a, b, c)) == 0
  {
    ValOfChar(b % 16 * 4 + c / 64);
    ValOfChar(c % 64);
  }

  lemma LastGroup(src: seq<byte>)
    requires 1 <= |src| <= 2
    ensures src <= Values(Padded(src)) && Padding(Padded(src)) == 3 - |src|
  {
    var a, b := src[0], if |src| == 1 then 0 else src[1];
    ValOfChar(a / 4);
    ValOfChar(a % 4 * 16 + b / 16);
    ValOfChar(b % 16 * 4);
    FirstByte(a, b);
    SecondByte(a % 4, b, 0);
  }

  lemma {:induction false} KeptAppend(a: string, b: string)
    ensures Kept(a + b) == Kept(a) + Kept(b)
  {
    if a == "" {
      assert a + b == b && "" + Kept(b) == Kept(b);
    } else {
      var rest := a[1..];
      KeptAppend(rest, b);
      assert (a + b)[0] == a[0] && (a + b)[1..] == rest + b;
      Assoc([a[0]], Kept(rest), Kept(b));
    }
  }

  /** The decoder passes over every character that is neither in the alphabet nor padding. */
  lemma SkipsOthers(a: string, c: char, b: string)
    requires c != '=' && c !in TABLE
    ensures Decoded(a + [c] + b) == Decoded(a + b)
  {
    ValueIs(c);
    KeptAppend(a, [c]);
    KeptAppend(a + [c], b);
    KeptAppend(a, b);
    assert Kept([c]) == "" && Kept(a) + "" == Kept(a);
  }

  /** Decoding an encoding gives back the bytes, through line feeds and padding. */
  lemma RoundTrip(src: seq<byte>)
    ensures Decoded(Encoded(src, 0)) == Some(src)
  {
    KeptEncoded(src, 0);
    GroupsOfPlain(src);
    assert Groups(Plain(src))[..|src|] == src;
  }

  /** The same of the two functions of the program. */
  method EncodeThenDecode(src: seq<byte>) returns (bytes: Option<seq<byte>>)
    requires 4 * |src| <= INT_MAX
    ensures bytes == Some(src)
  {
    var text := Encode(src);
    RoundTrip(src);
    bytes := Decode(text);
  }
}
