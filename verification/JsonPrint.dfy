/**
 * The printers of cJSON, which walk the items along their child and next pointers: one composes
 * texts in memory of computed size, the other writes everything into a growing buffer.
 */
module JsonPrint {
  import opened Basics
  import opened CString
  import opened Json
  import opened JsonText
  import opened JsonParse
  import opened PrintBuffer

  // Children. ------------------------------------------------------------------------------------

  function Nth(l: List, n: nat): List {
    if n == 0 || l == End then l else Nth(l.next, n - 1)
  }

  function Size(j: Json): nat {
    match j
    case Arr(l) => 1 + RowSize(l)
    case Obj(l) => 1 + RowSize(l)
    case _ => 0
  }

  function RowSize(l: List): nat {
    if l == End then 0 else 1 + Size(l.value) + RowSize(l.next)
  }

  lemma {:induction false} NthOf(l: List, n: nat)
    requires n <= |Children(l)|
    ensures Nth(l, n) == End <==> n == |Children(l)|
    ensures n < |Children(l)| ==>
      Children(l)[n] == (Nth(l, n).name, Nth(l, n).value) && Nth(l, n + 1) == Nth(l, n).next
    ensures RowSize(Nth(l, n)) <= RowSize(l)
    ensures PrintableItems(l) ==> PrintableItems(Nth(l, n))
    ensures PrintableMembers(l) ==> PrintableMembers(Nth(l, n))
  {
    if n > 0 {
      NthOf(l.next, n - 1);
    } else if l != End {
      assert Nth(l, 1) == Nth(l.next, 0);
    }
  }

  // The tree of item, which has children, can be printed.
  ghost predicate Ready(item: Item, made: set<Item>)
    reads made
  {
    AllOk(made) && item in made && Printable(item.tree)
  }

  // child is the child of item that the row l begins with; null at the end.
  ghost predicate Stands(item: Item, n: nat, child: Item?, l: List)
    reads item`tree, item`kids
  {
    && (item.tree.Arr? || item.tree.Obj?) && n <= |Children(item.tree.child)|
    && l == Nth(item.tree.child, n) && child == Neighbour(item.kids, n, null)
  }

  lemma FirstChild(item: Item, made: set<Item>)
    requires Ready(item, made) && (item.tree.Arr? || item.tree.Obj?)
    ensures Stands(item, 0, item.child, item.tree.child)
  {
    assert LookItems(0) && LookItem(0);
  }

  // The n-th child of an item and its place in the tree.
  lemma KidIs(item: Item, made: set<Item>, n: nat)
    requires AllOk(made) && item in made && (item.tree.Arr? || item.tree.Obj?)
    ensures |item.kids| == |Children(item.tree.child)|
    ensures n < |item.kids| ==>
      var k, c := item.kids[n], Children(item.tree.child)[n];
      k in made && k.tree == c.1 && k.name == c.0 && k.next == Neighbour(item.kids, n + 1, null)
  {
    assert LookItems(0) && LookItem(0);
  }

  lemma ChildIs(item: Item, made: set<Item>, n: nat, child: Item?, l: List)
    requires Ready(item, made) && Stands(item, n, child, l)
    ensures child == null <==> l == End
    ensures child != null ==> Ready(child, made) && child.tree == l.value && child.name == l.name
    ensures child != null ==> Stands(item, n + 1, child.next, l.next) && (child.next == null <==> l.next == End)
    ensures child != null ==> Size(l.value) < Size(item.tree)
  {
    KidIs(item, made, n);
    RowIs(item.tree, n, l);
    if child != null {
      RowIs(item.tree, n + 1, l.next);
    }
  }

  lemma RowIs(j: Json, n: nat, l: List)
    requires (j.Arr? || j.Obj?) && n <= |Children(j.child)| && l == Nth(j.child, n) && Printable(j)
    ensures l == End <==> n == |Children(j.child)|
    ensures l != End ==> Children(j.child)[n] == (l.name, l.value) && Nth(j.child, n + 1) == l.next
    ensures l != End ==> Printable(l.value) && Size(l.value) < Size(j)
  {
    NthOf(j.child, n);
  }

  // How the kind of an item tells its tree.
  lemma KindIs(item: Item, made: set<Item>)
    requires Ready(item, made)
    ensures match item.tree
            case Null => item.kind == KNull
            case False => item.kind == KFalse
            case True => item.kind == KTrue
            case Num(n) => item.kind == KNumber && item.valuedouble == n && item.valueint == n.Floor && IsInt(n)
            case Str(s) => item.kind == KString && item.valuestring == s
            case Arr(l) => item.kind == KArray
            case Obj(l) => item.kind == KObject
  {
    assert LookItems(0) && LookItem(0);
  }

  // Strings. -------------------------------------------------------------------------------------

  // The first loop of print_string_ptr: is there anything to escape?
  method HasSpecial(s: string) returns (flag: bool)
    ensures !flag ==> forall i :: 0 <= i < |s| ==> Plain(s[i])
  {
    flag := false;
    for i := 0 to |s|
      invariant !flag ==> forall k :: 0 <= k < i ==> Plain(s[k])
    {
      if !Plain(s[i]) {
        flag := true;
      }
    }
  }

  // The second loop: the length of the escaped string.
  method EscapedLength(s: string) returns (len: nat)
    ensures len == |EscapedText(s, "")|
  {
    len := 0;
    for i := 0 to |s|
      invariant len + |EscapedText(s[i..], "")| == |EscapedText(s, "")|
    {
      var token := s[i];
      assert s[i..][1..] == s[i + 1..];
      len := len + 1;
      if token == '"' || token == '\\' || token as int in {8, 12, 10, 13, 9} {
        len := len + 1;
      } else if token < ' ' {
        len := len + 5;
      }
    }
    assert s[|s|..] == "";
  }

  // What a string may take, without the quotes and the NUL.
  method StringSpace(s: string) returns (flag: bool, len: nat)
    ensures len == |EscapedText(s, "")| && len + 2 == |StringText(s, "")|
    ensures !flag ==> StringText(s, "") == "\"" + s + "\""
  {
    flag := HasSpecial(s);
    EscapedAppend(s, "\"");
    assert "\"" + "" == "\"";
    if flag {
      len := EscapedLength(s);
    } else {
      PlainCopied(s, "");
      PlainCopied(s, "\"");
      Assoc("\"", s, "\"");
      len := |s|;
    }
  }

  // The rest of print_string_ptr, with out pointing at position at of a.
  method WriteString(a: array<char>, at: nat, s: string, flag: bool, ghost t: string)
    requires at == |t| && t <= a[..] && at + |StringText(s, "")| < a.Length
    requires !flag ==> StringText(s, "") == "\"" + s + "\""
    modifies a
    ensures Ends(a[..], t + StringText(s, ""))
  {
    ghost var whole := StringText(s, "");
    assert "\"" + "" == "\"";
    if !flag {
      var e := PutEnd(a, at, "\"" + s + "\"", t);
    } else {
      var e := Put(a, at, "\"", t);
      ghost var w := t + "\"";
      Assoc(t, "\"", EscapedText(s, "\""));
      assert s[0..] == s;
      for i := 0 to |s|
        invariant e == |w| && w <= a[..] && w + EscapedText(s[i..], "\"") == t + whole
      {
        assert s[i..][1..] == s[i + 1..];
        Assoc(w, Escaped(s[i]), EscapedText(s[i + 1..], "\""));
        e := Put(a, e, Escaped(s[i]), w);
        w := w + Escaped(s[i]);
      }
      assert s[|s|..] == "";
      e := PutEnd(a, e, "\"", w);
    }
  }

  // Buffered printing. ---------------------------------------------------------------------------

  // The buffer holds the text t up to its offset.
  ghost predicate Holds(p: Buffer, t: string)
    reads p, p.buffer
  {
    p.Valid() && p.offset == |t| && t <= p.buffer[..]
  }

  // The buffer holds the text t with a NUL behind, and its offset is somewhere in it.
  ghost predicate Printed(p: Buffer, t: string)
    reads p, p.buffer
  {
    p.Valid() && p.offset <= |t| && Ends(p.buffer[..], t)
  }

  // There is no overflow of the sizes, which are ints.
  ghost predicate Small(t: string) {
    |t| + 32 <= 0x4000_0000
  }

  // p.offset = update(p).
  method Advance(p: Buffer, ghost t: string)
    requires Printed(p, t) && NoNul(t)
    modifies p`offset
    ensures Holds(p, t)
  {
    p.offset := p.Update(t);
  }

  // ensure and strcpy, for a text whose space was asked for.
  method PutWord(p: Buffer, w: string, needed: nat, ghost t: string)
    requires Holds(p, t) && |w| < needed <= |w| + 32 && Small(t + w)
    modifies p`buffer, p`length, p.buffer
    ensures Printed(p, t + w) && (p.buffer == old(p.buffer) || fresh(p.buffer))
  {
    var at := p.Ensure(needed);
    var e := PutEnd(p.buffer, at, w, t);
  }

  // ensure, some characters, with a NUL behind or not, and the advance of the offset.
  method PutChars(p: Buffer, w: string, nul: bool, ghost t: string)
    requires Holds(p, t) && (w != "" || nul) && Small(t + w)
    modifies p, p.buffer
    ensures Holds(p, t + w) && (p.buffer == old(p.buffer) || fresh(p.buffer))
  {
    var at := p.Ensure(if nul then |w| + 1 else |w|);
    if nul {
      var e := PutEnd(p.buffer, at, w, t);
    } else {
      var e := Put(p.buffer, at, w, t);
    }
    p.offset := p.offset + |w|;
  }

  // print_string_ptr with a buffer.
  method PutString(p: Buffer, s: string, ghost t: string)
    requires Holds(p, t) && Small(t + StringText(s, ""))
    modifies p`buffer, p`length, p.buffer
    ensures Printed(p, t + StringText(s, "")) && (p.buffer == old(p.buffer) || fresh(p.buffer))
  {
    var flag, len := StringSpace(s);
    var at := p.Ensure(len + 3);
    WriteString(p.buffer, at, s, flag, t);
  }

  // print_number with a buffer.
  method PutNumber(p: Buffer, d: real, n: int, ghost t: string)
    requires Holds(p, t) && IsInt(d) && n == d.Floor && Small(t + NumText(n, ""))
    modifies p`buffer, p`length, p.buffer
    ensures Printed(p, t + NumText(n, "")) && (p.buffer == old(p.buffer) || fresh(p.buffer))
  {
    NumLength(n);
    if d == 0.0 {
      PutWord(p, "0", 2, t);
    } else {
      PutWord(p, NumText(n, ""), 21, t);
    }
  }

  // print_value with a buffer.
  method PutValue(p: Buffer, item: Item, depth: nat, fmt: bool, ghost made: set<Item>, ghost t: string)
    requires Ready(item, made) && Holds(p, t) && NoNul(t) && Small(t + Text(item.tree, depth, fmt, ""))
    modifies p, p.buffer
    ensures Printed(p, t + Text(item.tree, depth, fmt, "")) && (p.buffer == old(p.buffer) || fresh(p.buffer))
    decreases Size(item.tree), 2
  {
    KindIs(item, made);
    match item.kind {
      case KNull => PutWord(p, "null", 5, t);
      case KFalse => PutWord(p, "false", 6, t);
      case KTrue => PutWord(p, "true", 5, t);
      case KNumber => PutNumber(p, item.valuedouble, item.valueint, t);
      case KString => PutString(p, item.valuestring, t);
      case KArray => PutArray(p, item, depth, fmt, made, t);
      case KObject => PutObject(p, item, depth, fmt, made, t);
      case KNone =>
    }
  }

  // The pieces of a row of items: a value, and a comma if another one follows.
  function Comma(l: List, fmt: bool): string
    requires l.Node?
  {
    if l.next == End then "" else if fmt then ", " else ","
  }

  lemma ItemPieces(l: List, depth: nat, fmt: bool, k: string)
    requires l.Node?
    ensures ItemsText(l, depth, fmt, k)
         == Text(l.value, depth + 1, fmt, "") + Comma(l, fmt) + ItemsText(l.next, depth, fmt, k)
  {
    var v, rest := Text(l.value, depth + 1, fmt, ""), ItemsText(l.next, depth, fmt, k);
    TextAppend(l.value, depth + 1, fmt, AfterItem(l, depth, fmt, k));
    assert "," + (" " + rest) == ", " + rest;
    assert v + "" == v;
    Assoc(v, Comma(l, fmt), rest);
  }

  // Prefixes of a text without NUL that is not too long.
  ghost predicate Whole(whole: string, s: string, rest: string) {
    whole == s + rest && NoNul(whole) && Small(whole)
  }

  lemma WholeNext(whole: string, s: string, a: string, rest: string)
    requires Whole(whole, s, a + rest)
    ensures Whole(whole, s + a, rest) && NoNul(s) && NoNul(s + a) && Small(s + a)
  {
    Assoc(s, a, rest);
    assert forall i :: 0 <= i < |s + a| ==> (s + a)[i] == whole[i];
    assert forall i :: 0 <= i < |s| ==> s[i] == whole[i];
  }

  lemma WholeText(t: string, j: Json, depth: nat, fmt: bool)
    requires NoNul(t) && Small(t + Text(j, depth, fmt, ""))
    ensures Whole(t + Text(j, depth, fmt, ""), t, Text(j, depth, fmt, ""))
  {
    TextNoNul(j, depth, fmt, "");
  }

  // One round of the loop of print_array: a child, and a comma if another one follows.
  method PutItem(p: Buffer, child: Item, depth: nat, fmt: bool, ghost made: set<Item>,
                 ghost l: List, ghost whole: string, ghost s: string)
    returns (ghost s': string)
    requires Ready(child, made) && l.Node? && child.tree == l.value && (child.next == null <==> l.next == End)
    requires Holds(p, s) && Whole(whole, s, ItemsText(l, depth, fmt, "]"))
    modifies p, p.buffer
    ensures Holds(p, s') && Whole(whole, s', ItemsText(l.next, depth, fmt, "]"))
    ensures p.buffer == old(p.buffer) || fresh(p.buffer)
    decreases Size(child.tree), 3
  {
    ghost var v, c, rest := Text(l.value, depth + 1, fmt, ""), Comma(l, fmt), ItemsText(l.next, depth, fmt, "]");
    ItemPieces(l, depth, fmt, "]");
    Assoc(v, c, rest);
    WholeNext(whole, s, v, c + rest);
    PutValue(p, child, depth + 1, fmt, made, s);
    Advance(p, s + v);
    s' := s + v;
    WholeNext(whole, s', c, rest);
    if child.next != null {
      PutChars(p, if fmt then ", " else ",", true, s');
    } else {
      assert s' + "" == s';
    }
    s' := s' + c;
  }

  // The loop of print_array.
  method PutItems(p: Buffer, item: Item, depth: nat, fmt: bool, ghost made: set<Item>, ghost whole: string, ghost s0: string)
    returns (ghost s: string)
    requires Ready(item, made) && item.tree.Arr?
    requires Holds(p, s0) && Whole(whole, s0, ItemsText(item.tree.child, depth, fmt, "]"))
    modifies p, p.buffer
    ensures Holds(p, s) && Whole(whole, s, "]")
    ensures p.buffer == old(p.buffer) || fresh(p.buffer)
    decreases Size(item.tree), 0
  {
    FirstChild(item, made);
    var child := item.child;
    ghost var n, l := 0, item.tree.child;
    s := s0;
    while child != null
      invariant Ready(item, made) && Stands(item, n, child, l)
      invariant Holds(p, s) && Whole(whole, s, ItemsText(l, depth, fmt, "]"))
      invariant p.buffer == old(p.buffer) || fresh(p.buffer)
      decreases |Children(item.tree.child)| - n
    {
      ChildIs(item, made, n, child, l);
      s := PutItem(p, child, depth, fmt, made, l, whole, s);
      child, n, l := child.next, n + 1, l.next;
    }
    ChildIs(item, made, n, child, l);
  }

  // print_array with a buffer.
  method PutArray(p: Buffer, item: Item, depth: nat, fmt: bool, ghost made: set<Item>, ghost t: string)
    requires Ready(item, made) && item.tree.Arr?
    requires Holds(p, t) && NoNul(t) && Small(t + Text(item.tree, depth, fmt, ""))
    modifies p, p.buffer
    ensures Printed(p, t + Text(item.tree, depth, fmt, "")) && (p.buffer == old(p.buffer) || fresh(p.buffer))
    decreases Size(item.tree), 1
  {
    FirstChild(item, made);
    ghost var l := item.tree.child;
    ChildIs(item, made, 0, item.child, l);
    if item.child == null {
      PutWord(p, "[]", 3, t);
    } else {
      ghost var rest := ItemsText(l, depth, fmt, "]");
      assert "]" + "" == "]";
      WholeText(t, item.tree, depth, fmt);
      WholeNext(t + ("[" + rest), t, "[", rest);
      PutChars(p, "[", false, t);
      ghost var s := PutItems(p, item, depth, fmt, made, t + ("[" + rest), t + "[");
      PutWord(p, "]", 2, s);
    }
  }

  // The pieces of a row of members.
  function Indent(depth: nat, fmt: bool): string {
    if fmt then Tabs(depth, "") else ""
  }

  function Colon(fmt: bool): string {
    if fmt then ":\t" else ":"
  }

  function LineEnd(l: List, fmt: bool): string
    requires l.Node?
  {
    (if l.next == End then "" else ",") + if fmt then "\n" else ""
  }

  lemma MemberPieces(l: List, depth: nat, fmt: bool, k: string)
    requires l.Node?
    ensures MembersText(l, depth, fmt, k)
         == Indent(depth, fmt) + (StringText(l.name, "") + (Colon(fmt) + (Text(l.value, depth, fmt, "")
            + (LineEnd(l, fmt) + MembersText(l.next, depth, fmt, k)))))
  {
    var after, value := AfterMember(l, depth, fmt, k), Text(l.value, depth, fmt, "");
    AfterPieces(l, depth, fmt, k);
    TextAppend(l.value, depth, fmt, after);
    ColonPieces(fmt, value + after);
    StringAppend(l.name, Colon(fmt) + (value + after));
    TabsAppend(if fmt then depth else 0, StringText(l.name, Colon(fmt) + (value + after)));
  }

  lemma AfterPieces(l: List, depth: nat, fmt: bool, k: string)
    requires l.Node?
    ensures AfterMember(l, depth, fmt, k) == LineEnd(l, fmt) + MembersText(l.next, depth, fmt, k)
  {
    var rest := MembersText(l.next, depth, fmt, k);
    Assoc(if l.next == End then "" else ",", if fmt then "\n" else "", rest);
    assert "" + rest == rest && "" + ("\n" + rest) == "\n" + rest;
  }

  lemma ColonPieces(fmt: bool, k: string)
    ensures Colon(fmt) + k == if fmt then ":" + ("\t" + k) else ":" + k
  {
    Assoc(":", "\t", k);
  }

  // The name of a member: indentation, name and colon.
  method PutName(p: Buffer, name: string, depth: nat, fmt: bool, ghost whole: string, ghost s: string, ghost rest: string)
    returns (ghost s': string)
    requires 0 < depth && Holds(p, s)
    requires Whole(whole, s, Indent(depth, fmt) + (StringText(name, "") + (Colon(fmt) + rest)))
    modifies p, p.buffer
    ensures Holds(p, s') && Whole(whole, s', rest) && (p.buffer == old(p.buffer) || fresh(p.buffer))
  {
    ghost var a, b, c := Indent(depth, fmt), StringText(name, ""), Colon(fmt);
    WholeNext(whole, s, a, b + (c + rest));
    WholeNext(whole, s + a, b, c + rest);
    WholeNext(whole, s + a + b, c, rest);
    if fmt {
      TabsLength(depth);
      PutChars(p, Tabs(depth, ""), false, s);
    } else {
      assert s + "" == s;
    }
    PutString(p, name, s + a);
    Advance(p, s + a + b);
    PutChars(p, if fmt then ":\t" else ":", false, s + a + b);
    s' := s + a + b + c;
  }

  // One round of the loop of print_object.
  method PutMember(p: Buffer, child: Item, depth: nat, fmt: bool, ghost made: set<Item>,
                   ghost l: List, ghost k: string, ghost whole: string, ghost s: string)
    returns (ghost s': string)
    requires Ready(child, made) && l.Node? && child.tree == l.value && child.name == l.name
    requires child.next == null <==> l.next == End
    requires 0 < depth && Holds(p, s) && Whole(whole, s, MembersText(l, depth, fmt, k))
    modifies p, p.buffer
    ensures Holds(p, s') && Whole(whole, s', MembersText(l.next, depth, fmt, k))
    ensures p.buffer == old(p.buffer) || fresh(p.buffer)
    decreases Size(child.tree), 3
  {
    ghost var v, e, rest := Text(l.value, depth, fmt, ""), LineEnd(l, fmt), MembersText(l.next, depth, fmt, k);
    MemberPieces(l, depth, fmt, k);
    s' := PutName(p, child.name, depth, fmt, whole, s, v + (e + rest));
    WholeNext(whole, s', v, e + rest);
    PutValue(p, child, depth, fmt, made, s');
    Advance(p, s' + v);
    s' := s' + v;
    WholeNext(whole, s', e, rest);
    PutChars(p, (if child.next != null then "," else "") + if fmt then "\n" else "", true, s');
    s' := s' + e;
  }

  // The loop of print_object; depth is that of the members.
  method PutMembers(p: Buffer, item: Item, depth: nat, fmt: bool, ghost made: set<Item>, ghost k: string,
                    ghost whole: string, ghost s0: string)
    returns (ghost s: string)
    requires Ready(item, made) && item.tree.Obj? && 0 < depth
    requires Holds(p, s0) && Whole(whole, s0, MembersText(item.tree.child, depth, fmt, k))
    modifies p, p.buffer
    ensures Holds(p, s) && Whole(whole, s, k)
    ensures p.buffer == old(p.buffer) || fresh(p.buffer)
    decreases Size(item.tree), 0
  {
    FirstChild(item, made);
    var child := item.child;
    ghost var n, l := 0, item.tree.child;
    s := s0;
    while child != null
      invariant Ready(item, made) && Stands(item, n, child, l)
      invariant Holds(p, s) && Whole(whole, s, MembersText(l, depth, fmt, k))
      invariant p.buffer == old(p.buffer) || fresh(p.buffer)
      decreases |Children(item.tree.child)| - n
    {
      ChildIs(item, made, n, child, l);
      s := PutMember(p, child, depth, fmt, made, l, k, whole, s);
      child, n, l := child.next, n + 1, l.next;
    }
    ChildIs(item, made, n, child, l);
  }

  // The opening of an object.
  function Opening(fmt: bool): string {
    if fmt then "{\n" else "{"
  }

  // The object without members.
  function EmptyObject(depth: nat, fmt: bool): string {
    if fmt then "{\n" + Tabs(depth - 1, "}") else "{}"
  }

  lemma ObjectPieces(l: List, depth: nat, fmt: bool)
    ensures Text(Obj(l), depth, fmt, "")
         == if l == End then EmptyObject(depth, fmt)
            else Opening(fmt) + MembersText(l, depth + 1, fmt, Closing(depth, fmt))
  {
    assert "}" + "" == "}";
    if l == End {
      Assoc("{", "\n", Tabs(depth - 1, "}"));
    } else {
      Assoc("{", "\n", MembersText(l, depth + 1, fmt, Closing(depth, fmt)));
    }
  }

  lemma EmptyLength(depth: nat, fmt: bool)
    ensures |EmptyObject(depth, fmt)| < (if fmt then depth + 4 else 3) <= |EmptyObject(depth, fmt)| + 32
  {
    TabsAppend(depth - 1, "}");
    TabsLength(depth - 1);
  }

  // The space print_object asks for is enough.
  lemma ObjectFits(l: List, depth: nat, fmt: bool)
    ensures |Opening(fmt) + MembersText(l, depth + 1, fmt, Closing(depth, fmt))|
          < 7 + (if fmt then depth + 1 else 0) + MembersSpace(l, depth + 1, fmt)
  {
    MembersFit(l, depth + 1, fmt, Closing(depth, fmt));
    ClosingLength(depth, fmt);
  }

  lemma ClosingLength(depth: nat, fmt: bool)
    ensures |Closing(depth, fmt)| < (if fmt then depth + 2 else 2)
  {
    TabsAppend(depth, "}");
    TabsLength(depth);
  }

  // print_object with a buffer.
  method PutObject(p: Buffer, item: Item, depth: nat, fmt: bool, ghost made: set<Item>, ghost t: string)
    requires Ready(item, made) && item.tree.Obj?
    requires Holds(p, t) && NoNul(t) && Small(t + Text(item.tree, depth, fmt, ""))
    modifies p, p.buffer
    ensures Printed(p, t + Text(item.tree, depth, fmt, "")) && (p.buffer == old(p.buffer) || fresh(p.buffer))
    decreases Size(item.tree), 1
  {
    FirstChild(item, made);
    ghost var l := item.tree.child;
    ChildIs(item, made, 0, item.child, l);
    ObjectPieces(l, depth, fmt);
    EmptyLength(depth, fmt);
    ClosingLength(depth, fmt);
    if item.child == null {
      PutWord(p, EmptyObject(depth, fmt), if fmt then depth + 4 else 3, t);
    } else {
      ghost var k := Closing(depth, fmt);
      ghost var whole, rest := t + Text(item.tree, depth, fmt, ""), MembersText(l, depth + 1, fmt, k);
      WholeText(t, item.tree, depth, fmt);
      WholeNext(whole, t, Opening(fmt), rest);
      PutChars(p, Opening(fmt), true, t);
      ghost var s := PutMembers(p, item, depth + 1, fmt, made, k, whole, t + Opening(fmt));
      PutWord(p, Closing(depth, fmt), if fmt then depth + 2 else 2, s);
    }
  }

  // Unbuffered printing: every text gets memory of its own. --------------------------------------

  // A text in memory: a[..e], with a NUL behind, is what is returned.
  method Finish(a: array<char>, at: nat, w: string, ghost s: string) returns (out: string)
    requires at == |s| && s <= a[..] && at + |w| < a.Length
    modifies a
    ensures out == s + w
  {
    var e := PutEnd(a, at, w, s);
    out := a[..e];
  }

  // print_string_ptr without a buffer.
  method PrintString(s: string) returns (out: string)
    ensures out == StringText(s, "")
  {
    var flag, len := StringSpace(s);
    var a := new char[len + 3];
    assert a[..0] == "" && "" + StringText(s, "") == StringText(s, "");
    WriteString(a, 0, s, flag, "");
    out := a[..len + 2];
  }

  // print_number without a buffer.
  method PrintNumber(d: real, n: int) returns (out: string)
    requires IsInt(d) && n == d.Floor
    ensures out == NumText(n, "")
  {
    NumLength(n);
    var a := new char[if d == 0.0 then 2 else 21];
    assert a[..0] == "";
    out := Finish(a, 0, if d == 0.0 then "0" else NumText(n, ""), "");
    assert "" + NumText(n, "") == NumText(n, "");
  }

  /** print_value without a buffer. */
  method PrintValue(item: Item, depth: nat, fmt: bool, ghost made: set<Item>) returns (out: string)
    requires Ready(item, made)
    ensures out == Text(item.tree, depth, fmt, "")
    decreases Size(item.tree), 3
  {
    KindIs(item, made);
    out := "";
    match item.kind {
      case KNull => out := "null";
      case KFalse => out := "false";
      case KTrue => out := "true";
      case KNumber => out := PrintNumber(item.valuedouble, item.valueint);
      case KString => out := PrintString(item.valuestring);
      case KArray => out := PrintArray(item, depth, fmt, made);
      case KObject => out := PrintObject(item, depth, fmt, made);
      case KNone =>
    }
    assert out + "" == out;
  }

  // The texts of the values in the row l, as far as they are there.
  ghost predicate AreTexts(entries: seq<string>, l: List, depth: nat, fmt: bool) {
    forall i :: 0 <= i < |entries| ==> Nth(l, i).Node? && entries[i] == Text(Nth(l, i).value, depth, fmt, "")
  }

  // The texts of the names in the row l.
  ghost predicate AreNames(names: seq<string>, l: List) {
    forall i :: 0 <= i < |names| ==> Nth(l, i).Node? && names[i] == StringText(Nth(l, i).name, "")
  }

  lemma {:induction false} NthNext(l: List, n: nat)
    requires Nth(l, n).Node?
    ensures Nth(l, n + 1) == Nth(l, n).next
  {
    if n > 0 {
      NthNext(l.next, n - 1);
    } else {
      assert Nth(l, 1) == Nth(l.next, 0);
    }
  }

  lemma MoreTexts(entries: seq<string>, e: string, l: List, depth: nat, fmt: bool)
    requires AreTexts(entries, l, depth, fmt) == true && Nth(l, |entries|).Node?
    requires e == Text(Nth(l, |entries|).value, depth, fmt, "")
    ensures AreTexts(entries + [e], l, depth, fmt)
  {
  }

  lemma MoreNames(names: seq<string>, e: string, l: List)
    requires AreNames(names, l) == true && Nth(l, |names|).Node? && e == StringText(Nth(l, |names|).name, "")
    ensures AreNames(names + [e], l)
  {
  }

  // The first loop of print_array: the texts of the items, and the space for all of them.
  method CollectItems(item: Item, depth: nat, fmt: bool, ghost made: set<Item>) returns (entries: seq<string>, space: nat)
    requires Ready(item, made) && item.tree.Arr?
    ensures AreTexts(entries, item.tree.child, depth + 1, fmt) == true && Nth(item.tree.child, |entries|) == End
    ensures space == ItemsSpace(item.tree.child, depth, fmt)
    decreases Size(item.tree), 0
  {
    FirstChild(item, made);
    var child := item.child;
    ghost var l := item.tree.child;
    entries, space := [], 0;
    while child != null
      invariant Stands(item, |entries|, child, l) && AreTexts(entries, item.tree.child, depth + 1, fmt) == true
      invariant space + ItemsSpace(l, depth, fmt) == ItemsSpace(item.tree.child, depth, fmt)
      decreases |Children(item.tree.child)| - |entries|
    {
      ChildIs(item, made, |entries|, child, l);
      var ret := PrintValue(child, depth + 1, fmt, made);
      MoreTexts(entries, ret, item.tree.child, depth + 1, fmt);
      entries := entries + [ret];
      space := space + |ret| + 2 + if fmt then 1 else 0;
      child, l := child.next, l.next;
    }
    ChildIs(item, made, |entries|, child, l);
  }

  // The second loop of print_array: out is composed of the entries.
  method ComposeItems(a: array<char>, at: nat, entries: seq<string>, fmt: bool, ghost l: List, ghost depth: nat,
                      ghost whole: string, ghost s0: string)
    returns (e: nat, ghost s: string)
    requires AreTexts(entries, l, depth + 1, fmt) == true && Nth(l, |entries|) == End && at == |s0| && s0 <= a[..]
    requires whole == s0 + ItemsText(l, depth, fmt, "]") && |whole| < a.Length
    modifies a
    ensures e == |s| && s <= a[..] && whole == s + "]"
  {
    e, s := at, s0;
    for i := 0 to |entries|
      invariant e == |s| && s <= a[..] && whole == s + ItemsText(Nth(l, i), depth, fmt, "]")
    {
      ghost var row := Nth(l, i);
      NthNext(l, i);
      ghost var v, c, more := Text(row.value, depth + 1, fmt, ""), Comma(row, fmt), ItemsText(row.next, depth, fmt, "]");
      ItemPieces(row, depth, fmt, "]");
      Assoc(s, v + c, more);
      assert s + (v + c) == s + v + c;
      e := Put(a, e, entries[i], s);
      var comma := if i != |entries| - 1 then if fmt then ", " else "," else "";
      e := Put(a, e, comma, s + v);
      s := s + v + c;
    }
  }

  // print_array without a buffer.
  method PrintArray(item: Item, depth: nat, fmt: bool, ghost made: set<Item>) returns (out: string)
    requires Ready(item, made) && item.tree.Arr?
    ensures out == Text(item.tree, depth, fmt, "")
    decreases Size(item.tree), 1
  {
    FirstChild(item, made);
    ghost var l := item.tree.child;
    ChildIs(item, made, 0, item.child, l);
    if item.child == null {
      out := "[]";
    } else {
      var entries, space := CollectItems(item, depth, fmt, made);
      var a := new char[5 + space];
      ghost var whole := "[" + ItemsText(l, depth, fmt, "]");
      ItemsFit(l, depth, fmt, "]");
      assert a[..0] == "" && "" + "[" == "[";
      var e := Put(a, 0, "[", "");
      ghost var s;
      e, s := ComposeItems(a, e, entries, fmt, l, depth, whole, "[");
      out := Finish(a, e, "]", s);
    }
    assert "]" + "" == "]";
  }

  // The first loop of print_object, for members of this depth.
  method CollectMembers(item: Item, depth: nat, fmt: bool, ghost made: set<Item>)
    returns (names: seq<string>, entries: seq<string>, space: nat)
    requires Ready(item, made) && item.tree.Obj?
    ensures AreNames(names, item.tree.child) == true && AreTexts(entries, item.tree.child, depth, fmt) == true
    ensures |names| == |entries| && Nth(item.tree.child, |entries|) == End
    ensures space == MembersSpace(item.tree.child, depth, fmt)
    decreases Size(item.tree), 0
  {
    FirstChild(item, made);
    var child := item.child;
    ghost var l := item.tree.child;
    names, entries, space := [], [], 0;
    while child != null
      invariant Stands(item, |entries|, child, l) && |names| == |entries|
      invariant AreNames(names, item.tree.child) == true && AreTexts(entries, item.tree.child, depth, fmt) == true
      invariant space + MembersSpace(l, depth, fmt) == MembersSpace(item.tree.child, depth, fmt)
      decreases |Children(item.tree.child)| - |entries|
    {
      ChildIs(item, made, |entries|, child, l);
      var str := PrintString(child.name);
      var ret := PrintValue(child, depth, fmt, made);
      MoreTexts(entries, ret, item.tree.child, depth, fmt);
      MoreNames(names, str, item.tree.child);
      names, entries := names + [str], entries + [ret];
      space := space + |ret| + |str| + 2 + if fmt then 2 + depth else 0;
      child, l := child.next, l.next;
    }
    ChildIs(item, made, |entries|, child, l);
  }

  // The second loop of print_object.
  method ComposeMembers(a: array<char>, at: nat, names: seq<string>, entries: seq<string>, depth: nat, fmt: bool,
                        ghost l: List, ghost k: string, ghost whole: string, ghost s0: string)
    returns (e: nat, ghost s: string)
    requires AreNames(names, l) == true && AreTexts(entries, l, depth, fmt) == true && |names| == |entries| && Nth(l, |entries|) == End
    requires at == |s0| && s0 <= a[..] && whole == s0 + MembersText(l, depth, fmt, k) && |whole| < a.Length
    modifies a
    ensures e == |s| && s <= a[..] && whole == s + k
  {
    e, s := at, s0;
    for i := 0 to |entries|
      invariant e == |s| && s <= a[..] && whole == s + MembersText(Nth(l, i), depth, fmt, k)
    {
      NthNext(l, i);
      e, s := ComposeMember(a, e, names[i], entries[i], i != |entries| - 1, depth, fmt, Nth(l, i), k, whole, s);
    }
  }

  // One round of it: indentation, name and colon, the value, and the end of the line.
  method ComposeMember(a: array<char>, at: nat, name: string, entry: string, more: bool, depth: nat, fmt: bool,
                       ghost l: List, ghost k: string, ghost whole: string, ghost s0: string)
    returns (e: nat, ghost s: string)
    requires l.Node? && name == StringText(l.name, "") && entry == Text(l.value, depth, fmt, "") && (more <==> l.next != End)
    requires at == |s0| && s0 <= a[..] && whole == s0 + MembersText(l, depth, fmt, k) && |whole| < a.Length
    modifies a
    ensures e == |s| && s <= a[..] && whole == s + MembersText(l.next, depth, fmt, k)
  {
    var w := (if fmt then Tabs(depth, "") else "") + name + (if fmt then ":\t" else ":");
    var end := (if more then "," else "") + if fmt then "\n" else "";
    ghost var rest := MembersText(l.next, depth, fmt, k);
    MemberPieces(l, depth, fmt, k);
    Flatten(s0, Indent(depth, fmt), name, Colon(fmt), entry, end, rest);
    e := Put(a, at, w, s0);
    e := Put(a, e, entry, s0 + w);
    e := Put(a, e, end, s0 + w + entry);
    s := s0 + w + entry + end;
  }

  lemma Flatten(s: string, a: string, b: string, c: string, d: string, e: string, r: string)
    ensures s + (a + (b + (c + (d + (e + r))))) == s + (a + b + c) + d + e + r
  {
  }

  // print_object without a buffer.
  method PrintObject(item: Item, depth: nat, fmt: bool, ghost made: set<Item>) returns (out: string)
    requires Ready(item, made) && item.tree.Obj?
    ensures out == Text(item.tree, depth, fmt, "")
    decreases Size(item.tree), 2
  {
    FirstChild(item, made);
    ghost var l := item.tree.child;
    ChildIs(item, made, 0, item.child, l);
    ObjectPieces(l, depth, fmt);
    EmptyLength(depth, fmt);
    if item.child == null {
      var a := new char[if fmt then depth + 4 else 3];
      assert a[..0] == "";
      out := Finish(a, 0, EmptyObject(depth, fmt), "");
      assert "" + EmptyObject(depth, fmt) == EmptyObject(depth, fmt);
    } else {
      out := PrintMembers(item, depth, fmt, made);
    }
  }

  // print_object where there are members.
  method PrintMembers(item: Item, depth: nat, fmt: bool, ghost made: set<Item>) returns (out: string)
    requires Ready(item, made) && item.tree.Obj?
    ensures out == Opening(fmt) + MembersText(item.tree.child, depth + 1, fmt, Closing(depth, fmt))
    decreases Size(item.tree), 1
  {
    ghost var l := item.tree.child;
    var names, entries, space := CollectMembers(item, depth + 1, fmt, made);
    var a := new char[7 + (if fmt then depth + 1 else 0) + space];
    ObjectFits(l, depth, fmt);
    out := ComposeObject(a, names, entries, depth, fmt, l);
  }

  // Its second half.
  method ComposeObject(a: array<char>, names: seq<string>, entries: seq<string>, depth: nat, fmt: bool, ghost l: List)
    returns (out: string)
    requires AreNames(names, l) == true && AreTexts(entries, l, depth + 1, fmt) == true
    requires |names| == |entries| && Nth(l, |entries|) == End
    requires |Opening(fmt) + MembersText(l, depth + 1, fmt, Closing(depth, fmt))| < a.Length
    modifies a
    ensures out == Opening(fmt) + MembersText(l, depth + 1, fmt, Closing(depth, fmt))
  {
    ghost var k := Closing(depth, fmt);
    ghost var whole := Opening(fmt) + MembersText(l, depth + 1, fmt, k);
    assert a[..0] == "" && "" + Opening(fmt) == Opening(fmt);
    var e := Put(a, 0, Opening(fmt), "");
    ghost var s;
    e, s := ComposeMembers(a, e, names, entries, depth + 1, fmt, l, k, whole, Opening(fmt));
    out := Finish(a, e, Closing(depth, fmt), s);
  }

  // Printing a whole tree. -----------------------------------------------------------------------

  lemma ReadyRoot(root: Item, all: set<Item>)
    requires Finished(root, all) && Printable(root.tree)
    ensures Ready(root, all + {root})
  {
    AllMore(all, root);
  }

  /** cJSON_Print and cJSON_PrintUnformatted. */
  method Print(root: Item, fmt: bool, ghost all: set<Item>) returns (out: string)
    requires Finished(root, all) && Printable(root.tree)
    ensures out == Text(root.tree, 0, fmt, "")
  {
    ReadyRoot(root, all);
    out := PrintValue(root, 0, fmt, all + {root});
  }

  /**
   * cJSON_PrintBuffered: for every size of the first buffer but 0, for which there may be none, the
   * text is the same, and it never leaves the buffer it is written to.
   */
  method PrintBuffered(root: Item, prebuffer: nat, fmt: bool, ghost all: set<Item>) returns (out: string)
    requires Finished(root, all) && Printable(root.tree) && Small(Text(root.tree, 0, fmt, "")) && 0 < prebuffer
    ensures out == Text(root.tree, 0, fmt, "")
  {
    ReadyRoot(root, all);
    var p := new Buffer(prebuffer);
    assert "" + Text(root.tree, 0, fmt, "") == Text(root.tree, 0, fmt, "");
    PutValue(p, root, 0, fmt, all + {root}, "");
    TextNoNul(root.tree, 0, fmt, "");
    var n := Strlen(p.buffer, 0, Text(root.tree, 0, fmt, ""));
    out := p.buffer[..n];
  }

  /** What is printed, either way, parses to a tree equal to the one printed. */
  method PrintThenParse(root: Item, prebuffer: nat, fmt: bool, ghost all: set<Item>)
    returns (copy: Item?, again: Item?, ghost of: set<Item>, ghost of': set<Item>)
    requires Finished(root, all) && Printable(root.tree) && Small(Text(root.tree, 0, fmt, "")) && 0 < prebuffer
    ensures copy != null && fresh(copy) && fresh(of) && Finished(copy, of) && copy.tree == root.tree
    ensures again != null && fresh(again) && fresh(of') && Finished(again, of') && again.tree == root.tree
  {
    PrintedParses(root.tree, fmt);
    var out := Print(root, fmt, all);
    copy, of := Parse(out);
    var out' := PrintBuffered(root, prebuffer, fmt, all);
    again, of' := Parse(out');
  }
}
