/**
 * What the printers rest on: texts compose, contain no NUL, and fit into the space that is
 * computed for them.
 */
module JsonText {
  import opened Basics
  import opened CString
  import opened Json

  // What follows a text does not change it. -------------------------------------------------------

  lemma {:induction false} DigitsAppend(n: nat, k: string)
    ensures DigitsText(n, k) == DigitsText(n, "") + k
  {
    if n >= 10 {
      var d := [Digit(n % 10)];
      DigitsAppend(n / 10, d + k);
      DigitsAppend(n / 10, d + "");
      assert d + "" == d;
      Assoc(DigitsText(n / 10, ""), d, k);
    }
  }

  lemma NumAppend(n: int, k: string)
    ensures NumText(n, k) == NumText(n, "") + k
  {
    DigitsAppend(if n < 0 then -n else n, k);
  }

  lemma {:induction false} EscapedAppend(s: string, k: string)
    ensures EscapedText(s, k) == EscapedText(s, "") + k
  {
    if s != "" {
      EscapedAppend(s[1..], k);
      Assoc(Escaped(s[0]), EscapedText(s[1..], ""), k);
    }
  }

  lemma StringAppend(s: string, k: string)
    ensures StringText(s, k) == StringText(s, "") + k
  {
    EscapedAppend(s, "\"" + k);
    EscapedAppend(s, "\"");
    assert "\"" + "" == "\"";
    Assoc(EscapedText(s, ""), "\"", k);
    Assoc("\"", EscapedText(s, "\""), k);
  }

  lemma {:induction false} TabsAppend(n: int, k: string)
    ensures Tabs(n, k) == Tabs(n, "") + k
    decreases n
  {
    if n > 0 {
      TabsAppend(n - 1, k);
      Assoc("\t", Tabs(n - 1, ""), k);
    }
  }

  lemma {:induction false} TabsLength(n: int)
    ensures |Tabs(n, "")| == if n < 0 then 0 else n
    decreases n
  {
    if n > 0 {
      TabsLength(n - 1);
    }
  }

  lemma {:induction false} TextAppend(j: Json, depth: nat, fmt: bool, k: string)
    ensures Text(j, depth, fmt, k) == Text(j, depth, fmt, "") + k
    decreases j, 3
  {
    match j {
      case Num(n) => NumAppend(n.Floor, k);
      case Str(s) => StringAppend(s, k);
      case Arr(l) =>
        ItemsAppend(l, depth, fmt, "]", k);
        assert "]" + "" == "]";
        Assoc("[", ItemsText(l, depth, fmt, "]"), k);
      case Obj(l) => ObjectAppend(l, depth, fmt, k);
      case _ =>
    }
  }

  lemma {:induction false} ItemsAppend(l: List, depth: nat, fmt: bool, a: string, k: string)
    ensures ItemsText(l, depth, fmt, a + k) == ItemsText(l, depth, fmt, a) + k
    decreases l, 2
  {
    if l != End {
      var r, s := AfterItem(l, depth, fmt, a), AfterItem(l, depth, fmt, a + k);
      if l.next != End {
        ItemsAppend(l.next, depth, fmt, a, k);
        Assoc(" ", ItemsText(l.next, depth, fmt, a), k);
        Assoc(",", Spaced(fmt, ItemsText(l.next, depth, fmt, a)), k);
      }
      assert s == r + k;
      TextAppend(l.value, depth + 1, fmt, s);
      TextAppend(l.value, depth + 1, fmt, r);
      Assoc(Text(l.value, depth + 1, fmt, ""), r, k);
    }
  }

  // What follows an item: the rest of the row.
  function AfterItem(l: List, depth: nat, fmt: bool, k: string): string
    requires l.Node?
  {
    if l.next == End then k else "," + Spaced(fmt, ItemsText(l.next, depth, fmt, k))
  }

  // What ends an object that is not empty.
  function Closing(depth: nat, fmt: bool): string {
    if fmt then Tabs(depth, "}") else "}"
  }

  lemma ClosingAppend(depth: nat, fmt: bool, k: string)
    ensures (if fmt then Tabs(depth, "}" + k) else "}" + k) == Closing(depth, fmt) + k
  {
    TabsAppend(depth, "}" + k);
    TabsAppend(depth, "}");
    Assoc(Tabs(depth, ""), "}", k);
  }

  lemma {:induction false} ObjectAppend(l: List, depth: nat, fmt: bool, k: string)
    ensures Text(Obj(l), depth, fmt, k) == Text(Obj(l), depth, fmt, "") + k
    decreases l, 3
  {
    assert "}" + "" == "}";
    if l == End {
      TabsAppend(depth - 1, "}" + k);
      TabsAppend(depth - 1, "}");
      Assoc(Tabs(depth - 1, ""), "}", k);
      Assoc("\n", Tabs(depth - 1, "}"), k);
      Assoc("{", "\n" + Tabs(depth - 1, "}"), k);
      Assoc("{", "}", k);
    } else {
      var c, m := Closing(depth, fmt), MembersText(l, depth + 1, fmt, Closing(depth, fmt));
      ClosingAppend(depth, fmt, k);
      ClosingAppend(depth, fmt, "");
      assert c + "" == c;
      MembersAppend(l, depth + 1, fmt, c, k);
      Assoc("{", m, k);
      Assoc("{" + "\n", m, k);
    }
  }

  lemma {:induction false} MembersAppend(l: List, depth: nat, fmt: bool, a: string, k: string)
    ensures MembersText(l, depth, fmt, a + k) == MembersText(l, depth, fmt, a) + k
    decreases l, 2
  {
    if l != End {
      var m := MemberText(l, depth, fmt, a);
      MemberAppend(l, depth, fmt, a, k);
      Assoc(":", m, k);
      StringMore(l.name, ":" + m, k);
      TabsMore(if fmt then depth else 0, StringText(l.name, ":" + m), k);
    }
  }

  lemma StringMore(s: string, a: string, k: string)
    ensures StringText(s, a + k) == StringText(s, a) + k
  {
    StringAppend(s, a + k);
    StringAppend(s, a);
    Assoc(StringText(s, ""), a, k);
  }

  lemma TabsMore(n: int, a: string, k: string)
    ensures Tabs(n, a + k) == Tabs(n, a) + k
  {
    TabsAppend(n, a + k);
    TabsAppend(n, a);
    Assoc(Tabs(n, ""), a, k);
  }

  lemma {:induction false} MemberAppend(l: List, depth: nat, fmt: bool, a: string, k: string)
    requires l.Node?
    ensures MemberText(l, depth, fmt, a + k) == MemberText(l, depth, fmt, a) + k
    decreases l, 1
  {
    var r := AfterMember(l, depth, fmt, a);
    MembersAppend(l.next, depth, fmt, a, k);
    Assoc("\n", MembersText(l.next, depth, fmt, a), k);
    Assoc(",", if fmt then "\n" + MembersText(l.next, depth, fmt, a) else MembersText(l.next, depth, fmt, a), k);
    assert AfterMember(l, depth, fmt, a + k) == r + k;
    TextAppend(l.value, depth, fmt, r + k);
    TextAppend(l.value, depth, fmt, r);
    Assoc(Text(l.value, depth, fmt, ""), r, k);
    Assoc("\t", Text(l.value, depth, fmt, r), k);
  }

  // No NUL in a text. ----------------------------------------------------------------------------

  lemma {:induction false} DigitsNoNul(n: nat, k: string)
    requires NoNul(k)
    ensures NoNul(DigitsText(n, k))
  {
    if n >= 10 {
      DigitsNoNul(n / 10, [Digit(n % 10)] + k);
    }
  }

  lemma {:induction false} EscapedNoNul(s: string, k: string)
    requires NoNul(k)
    ensures NoNul(EscapedText(s, k))
  {
    if s != "" {
      EscapedNoNul(s[1..], k);
      OneNoNul(s[0]);
    }
  }

  lemma OneNoNul(c: char)
    ensures NoNul(Escaped(c))
  {
  }

  lemma StringNoNul(s: string, k: string)
    requires NoNul(k)
    ensures NoNul(StringText(s, k))
  {
    EscapedNoNul(s, "\"" + k);
  }

  lemma {:induction false} TabsNoNul(n: int, k: string)
    requires NoNul(k)
    ensures NoNul(Tabs(n, k))
    decreases n
  {
    if n > 0 {
      TabsNoNul(n - 1, k);
    }
  }

  lemma {:induction false} TextNoNul(j: Json, depth: nat, fmt: bool, k: string)
    requires NoNul(k)
    ensures NoNul(Text(j, depth, fmt, k))
    decreases j, 1
  {
    match j {
      case Num(n) => DigitsNoNul(if n.Floor < 0 then -n.Floor else n.Floor, k);
      case Str(s) => StringNoNul(s, k);
      case Arr(l) => ItemsNoNul(l, depth, fmt, "]" + k);
      case Obj(l) =>
        TabsNoNul(depth - 1, "}" + k);
        TabsNoNul(depth, "}" + k);
        MembersNoNul(l, depth + 1, fmt, if fmt then Tabs(depth, "}" + k) else "}" + k);
      case _ =>
    }
  }

  lemma {:induction false} ItemsNoNul(l: List, depth: nat, fmt: bool, k: string)
    requires NoNul(k)
    ensures NoNul(ItemsText(l, depth, fmt, k))
    decreases l, 0
  {
    if l != End {
      ItemsNoNul(l.next, depth, fmt, k);
      TextNoNul(l.value, depth + 1, fmt, AfterItem(l, depth, fmt, k));
    }
  }

  lemma {:induction false} MembersNoNul(l: List, depth: nat, fmt: bool, k: string)
    requires NoNul(k)
    ensures NoNul(MembersText(l, depth, fmt, k))
    decreases l, 0
  {
    if l != End {
      MembersNoNul(l.next, depth, fmt, k);
      TextNoNul(l.value, depth, fmt, AfterMember(l, depth, fmt, k));
      StringNoNul(l.name, ":" + MemberText(l, depth, fmt, k));
      TabsNoNul(if fmt then depth else 0, StringText(l.name, ":" + MemberText(l, depth, fmt, k)));
    }
  }

  // The space computed by the unbuffered printers. -----------------------------------------------

  // What print_array adds up for its entries.
  function ItemsSpace(l: List, depth: nat, fmt: bool): nat {
    if l == End then 0
    else |Text(l.value, depth + 1, fmt, "")| + 2 + (if fmt then 1 else 0) + ItemsSpace(l.next, depth, fmt)
  }

  lemma {:induction false} ItemsFit(l: List, depth: nat, fmt: bool, k: string)
    ensures |ItemsText(l, depth, fmt, k)| <= ItemsSpace(l, depth, fmt) + |k|
    decreases l
  {
    if l != End {
      ItemsFit(l.next, depth, fmt, k);
      TextAppend(l.value, depth + 1, fmt, AfterItem(l, depth, fmt, k));
    }
  }

  // What print_object adds up for its entries.
  function MembersSpace(l: List, depth: nat, fmt: bool): nat {
    if l == End then 0
    else |Text(l.value, depth, fmt, "")| + |StringText(l.name, "")| + 2 + (if fmt then 2 + depth else 0)
         + MembersSpace(l.next, depth, fmt)
  }

  lemma {:induction false} MembersFit(l: List, depth: nat, fmt: bool, k: string)
    ensures |MembersText(l, depth, fmt, k)| <= MembersSpace(l, depth, fmt) + |k|
    decreases l
  {
    if l != End {
      MembersFit(l.next, depth, fmt, k);
      TextAppend(l.value, depth, fmt, AfterMember(l, depth, fmt, k));
      var m := ":" + MemberText(l, depth, fmt, k);
      StringAppend(l.name, m);
      TabsAppend(if fmt then depth else 0, StringText(l.name, m));
      TabsLength(if fmt then depth else 0);
    }
  }

  // 32-bit integers have at most 11 characters.
  lemma NumLength(n: int)
    requires -0x8000_0000 <= n <= 0x7FFF_FFFF
    ensures |NumText(n, "")| <= 11
  {
    assert Pow10(5) == 100_000 && Pow10(10) == 10_000_000_000;
    DigitsLength(if n < 0 then -n else n, 10, "");
  }

  lemma {:induction false} DigitsLength(n: nat, d: nat, k: string)
    requires 0 < d && n < Pow10(d)
    ensures |DigitsText(n, k)| <= d + |k|
    decreases n
  {
    TenTimes(d, n);
    if n >= 10 {
      DigitsLength(n / 10, d - 1, [Digit(n % 10)] + k);
    }
  }

  lemma TenTimes(d: nat, n: nat)
    requires 0 < d && n < Pow10(d)
    ensures n >= 10 ==> d > 1 && n / 10 < Pow10(d - 1)
  {
    assert Pow10(1) == 10 * Pow10(0);
    assert Pow10(d) == 10 * Pow10(d - 1);
  }

  // A string without special characters is copied.
  lemma {:induction false} PlainCopied(s: string, k: string)
    requires forall i :: 0 <= i < |s| ==> Plain(s[i])
    ensures EscapedText(s, k) == s + k
  {
    if s == "" {
      assert "" + k == k;
    } else {
      var rest := s[1..];
      forall i | 0 <= i < |rest| ensures Plain(rest[i]) {
        assert rest[i] == s[i + 1];
      }
      PlainCopied(rest, k);
      Assoc([s[0]], rest, k);
      assert s == [s[0]] + rest;
    }
  }

  /** Printing a tree and parsing the text gives back the tree, and no text is left. */
  lemma PrintedParses(j: Json, fmt: bool)
    requires Printable(j)
    ensures ParseValue(Skip(Text(j, 0, fmt, ""))) == Got(j, "")
  {
    TextStarts(j, 0, fmt, "");
    RoundTrip(j, 0, fmt, "");
  }

  // What strings and layout look like. ------------------------------------------------------------

  /** The escapes of section 7 of RFC 8259; other control characters are four hexadecimal digits. */
  lemma EscapesAre()
    ensures Escaped('"') == "\\\"" && Escaped('\\') == "\\\\" && Escaped(8 as char) == "\\b" && Escaped(12 as char) == "\\f"
    ensures Escaped('\n') == "\\n" && Escaped('\r') == "\\r" && Escaped('\t') == "\\t"
    ensures Escaped(1 as char) == "\\u0001" && Escaped(0x1F as char) == "\\u001f" && Escaped('/') == "/" && Escaped('a') == "a"
  {
  }

  // Printable, and no quote that is not escaped.
  ghost predicate Clean(t: string) {
    if t == "" then true
    else if t[0] == '\\' then |t| >= 2 && ' ' <= t[1] && Clean(t[2..])
    else ' ' <= t[0] != '"' && Clean(t[1..])
  }

  lemma {:induction false} CleanAppend(a: string, b: string)
    requires Clean(a) && Clean(b)
    ensures Clean(a + b)
    decreases |a|
  {
    if a == "" {
      assert a + b == b;
    } else {
      var n := if a[0] == '\\' then 2 else 1;
      Rejoined(a, n, b);
      var rest := a[n..];
      CleanAppend(rest, b);
      if n == 2 { PairBefore(a[0], a[1], rest + b); } else { OneBefore(a[0], rest + b); }
    }
  }

  lemma Rejoined(a: string, n: nat, b: string)
    requires 1 <= n <= 2 && n <= |a|
    ensures a + b == (if n == 1 then [a[0]] else [a[0], a[1]]) + (a[n..] + b)
  {
  }

  lemma OneBefore(c: char, k: string)
    requires ' ' <= c != '"' && c != '\\' && Clean(k)
    ensures Clean([c] + k)
  {
    assert ([c] + k)[1..] == k;
  }

  lemma PairBefore(c: char, d: char, k: string)
    requires c == '\\' && ' ' <= d && Clean(k)
    ensures Clean([c, d] + k)
  {
    assert ([c, d] + k)[2..] == k;
  }

  lemma EscapedIsClean(c: char)
    ensures Clean(Escaped(c))
  {
    var e := Escaped(c);
    if |e| == 6 {
      OneBefore(e[5], "");
      OneBefore(e[4], [e[5]] + "");
      OneBefore(e[3], [e[4]] + ([e[5]] + ""));
      OneBefore(e[2], [e[3]] + ([e[4]] + ([e[5]] + "")));
      PairBefore(e[0], e[1], [e[2]] + ([e[3]] + ([e[4]] + ([e[5]] + ""))));
      assert e == [e[0], e[1]] + ([e[2]] + ([e[3]] + ([e[4]] + ([e[5]] + ""))));
    } else if |e| == 2 {
      PairBefore(e[0], e[1], "");
      assert e == [e[0], e[1]] + "";
    } else {
      OneBefore(e[0], "");
      assert e == [e[0]] + "";
    }
  }

  /** The text of a string has no control characters, and no quotes but escaped ones. */
  lemma {:induction false} StringIsClean(s: string)
    ensures Clean(EscapedText(s, ""))
  {
    if s != "" {
      StringIsClean(s[1..]);
      EscapedIsClean(s[0]);
      CleanAppend(Escaped(s[0]), EscapedText(s[1..], ""));
    }
  }

  // The items 10 and true, in front of k.
  lemma SampleItems(fmt: bool, k: string)
    ensures ItemsText(Node("", Num(10.0), Node("", True, End)), 1, fmt, k) == (if fmt then "10, true" else "10,true") + k
  {
    var n := Node("", True, End);
    var t := ItemsText(n, 1, fmt, k);
    assert t == "true" + k;
    var u := "," + Spaced(fmt, t);
    assert u == (if fmt then ", true" else ",true") + k;
    assert DigitsText(1, "0" + u) == "1" + ("0" + u) && DigitsText(10, u) == DigitsText(1, "0" + u);
    assert NumText(10, u) == "10" + u && Num(10.0).n.Floor == 10;
    assert "10" + u == (if fmt then "10, true" else "10,true") + k;
  }

  lemma SampleName(k: string)
    ensures StringText("a", k) == "\"a\"" + k
  {
    var q := "\"" + k;
    assert "a"[1..] == "" && EscapedText("", q) == q && Escaped('a') == "a" && EscapedText("a", q) == "a" + q;
    assert "\"" + ("a" + q) == "\"a\"" + k;
  }

  lemma SampleValue(fmt: bool)
    ensures var m := Node("a", Arr(Node("", Num(10.0), Node("", True, End))), End);
      MemberText(m, 1, fmt, "}") == if fmt then "\t[10, true]\n}" else "[10,true]}"
  {
    var l := Node("", Num(10.0), Node("", True, End));
    var m := Node("a", Arr(l), End);
    var last := if fmt then "\n}" else "}";
    assert "\n" + "}" == "\n}" && MembersText(End, 1, fmt, "}") == "}";
    assert AfterMember(m, 1, fmt, "}") == last;
    SampleItems(fmt, "]" + last);
    var items := (if fmt then "10, true" else "10,true") + ("]" + last);
    assert Text(Arr(l), 1, fmt, last) == "[" + items;
    assert "\t" + ("[" + items) == if fmt then "\t[10, true]\n}" else "\t[10,true]}";
  }

  // An object of one member, whose value and what follows is v.
  lemma SampleObject(m: List, fmt: bool, v: string)
    requires m.Node? && v == MemberText(m, 1, fmt, "}")
    ensures var name := StringText(m.name, ":" + v);
      Text(Obj(m), 0, fmt, "") == if fmt then "{" + "\n" + ("\t" + name) else "{" + name
  {
    var name := StringText(m.name, ":" + v);
    assert "}" + "" == "}" && Tabs(0, "}") == "}" && Tabs(0, name) == name && Tabs(1, name) == "\t" + name;
    assert MembersText(m, 1, fmt, "}") == Tabs(if fmt then 1 else 0, name);
  }

  lemma SampleGlue(v: string)
    ensures "{" + ("\"a\"" + (":" + v)) == "{\"a\":" + v
    ensures "{" + "\n" + ("\t" + ("\"a\"" + (":" + v))) == "{\n\t\"a\":" + v
  {
  }

  /** An object, as it is printed unformatted and formatted. */
  lemma SampleText(fmt: bool)
    ensures Text(Obj(Node("a", Arr(Node("", Num(10.0), Node("", True, End))), End)), 0, fmt, "")
         == if fmt then "{\n\t\"a\":" + "\t[10, true]\n}" else "{\"a\":" + "[10,true]}"
  {
    var m := Node("a", Arr(Node("", Num(10.0), Node("", True, End))), End);
    var v := MemberText(m, 1, fmt, "}");
    SampleValue(fmt);
    SampleName(":" + v);
    SampleObject(m, fmt, v);
    SampleGlue(v);
  }
}
