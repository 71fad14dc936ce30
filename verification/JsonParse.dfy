/**
 * The parser of cJSON: recursive descent with a moving pointer, which builds items linked by
 * their child, next and prev pointers.
 */
module JsonParse {
  import opened Json
  import opened JsonString

  datatype Kind = KNone | KNull | KFalse | KTrue | KNumber | KString | KArray | KObject

  ghost predicate LookItems(q: int) {
    true
  }

  ghost predicate LookItem(q: int) {
    true
  }

  // cJSON.
  class Item {
    var kind: Kind
    var valueint: int
    var valuedouble: real
    var valuestring: string
    var name: string
    var child: Item?
    var next: Item?
    var prev: Item?

    // The tree this item stands for, its children in order and the item it is a child of.
    ghost var tree: Json
    ghost var kids: seq<Item>
    ghost var owner: Item?

    constructor ()
      ensures kind == KNone && valuestring == "" && name == "" && child == next == prev == null
      ensures kids == [] && owner == null
    {
      kind, valueint, valuedouble, valuestring, name := KNone, 0, 0.0, "", "";
      child, next, prev, tree, kids, owner := null, null, null, Null, [], null;
    }

    // The fields agree with the tree; the children are among the items made. (Behind a key, as
    // in the file-system modules.)
    ghost predicate Ok(made: set<Item>)
      reads `tree, `kind, `valueint, `valuedouble, `valuestring, `child, `kids
      reads kids`owner, kids`name, kids`tree, kids`next, kids`prev
    {
      forall q :: LookItem(q) ==> Good(made)
    }

    ghost predicate Good(made: set<Item>)
      reads `tree, `kind, `valueint, `valuedouble, `valuestring, `child, `kids
      reads kids`owner, kids`name, kids`tree, kids`next, kids`prev
    {
      match tree
      case Null => kind == KNull
      case False => kind == KFalse
      case True => kind == KTrue
      case Num(n) => kind == KNumber && valuedouble == n && (InInt(n) ==> valueint == Truncated(n))
      case Str(s) => kind == KString && valuestring == s
      case Arr(l) => kind == KArray && HasKids(Children(l), made, null)
      case Obj(l) => kind == KObject && HasKids(Children(l), made, null)
    }

    ghost function Youngest(): Item?
      reads `kids
    {
      Neighbour(kids, |kids| - 1, null)
    }

    // The children have these names and values and are linked both ways; end follows them.
    ghost predicate HasKids(s: seq<(string, Json)>, made: set<Item>, end: Item?)
      reads `child, `kids, kids`owner, kids`name, kids`tree, kids`next, kids`prev
    {
      Holds(s, made) && Chained(end)
    }

    ghost predicate Holds(s: seq<(string, Json)>, made: set<Item>)
      reads `kids, kids`owner, kids`name, kids`tree, kids`prev
    {
      && |kids| == |s|
      && forall i :: 0 <= i < |kids| ==>
           && kids[i] in made && kids[i].owner == this && kids[i].name == s[i].0 && kids[i].tree == s[i].1
           && kids[i].prev == Neighbour(kids, i - 1, null)
    }

    ghost predicate Chained(end: Item?)
      reads `child, `kids, kids`next
    {
      && child == Neighbour(kids, 0, end)
      && forall i :: 0 <= i < |kids| ==> kids[i].next == Neighbour(kids, i + 1, end)
    }
  }

  // (int)n, which C defines if the result is an int.
  function Truncated(n: real): (t: int)
    ensures n >= 0.0 ==> t as real <= n < t as real + 1.0
    ensures n < 0.0 ==> t as real - 1.0 < n <= t as real
  {
    if n < 0.0 then -(-n).Floor else n.Floor
  }

  predicate InInt(n: real) {
    -0x8000_0000 <= Truncated(n) <= 0x7FFF_FFFF
  }

  // Item i of ks, or end if there is none.
  ghost function Neighbour(ks: seq<Item>, i: int, end: Item?): Item? {
    if 0 <= i < |ks| then ks[i] else end
  }

  // All finished items are as they should be. (Behind a key: the parser carries it along.)
  ghost predicate AllOk(made: set<Item>)
    reads made
  {
    forall q :: LookItems(q) ==> forall x :: x in made ==> Within(x, made) && Owns(x) && x.Ok(made)
  }

  ghost predicate Within(x: Item, made: set<Item>)
    reads x`kids
  {
    forall k :: k in x.kids ==> k in made
  }

  ghost predicate Owns(x: Item)
    reads x`kids, x.kids`owner
  {
    forall k :: k in x.kids ==> k.owner == x
  }

  // A list of children as a sequence.
  function Children(l: List): seq<(string, Json)> {
    if l == End then [] else [(l.name, l.value)] + Children(l.next)
  }

  function Behind(s: seq<(string, Json)>, l: List): List {
    if s == [] then l else Node(s[0].0, s[0].1, Behind(s[1..], l))
  }

  lemma {:induction false} ChildrenBehind(s: seq<(string, Json)>, l: List)
    ensures Children(Behind(s, l)) == s + Children(l)
  {
    if s != [] {
      ChildrenBehind(s[1..], l);
      assert s == [s[0]] + s[1..];
    }
  }

  // Children s in front of what is parsed next.
  function Prepend(s: seq<(string, Json)>, r: Parsed<List>): Parsed<List> {
    if !r.Got? then Failed(r) else Got(Behind(s, r.value), r.rest)
  }

  lemma {:induction false} BehindMore(s: seq<(string, Json)>, name: string, v: Json, l: List)
    ensures Behind(s, Node(name, v, l)) == Behind(s + [(name, v)], l)
  {
    if s != [] {
      BehindMore(s[1..], name, v, l);
      assert (s + [(name, v)])[1..] == s[1..] + [(name, v)];
    }
  }

  // skip.
  method SkipText(t: string, i: nat) returns (e: nat)
    requires i <= |t|
    ensures i <= e <= |t| && t[e..] == Skip(t[i..])
  {
    e := i;
    while e < |t| && t[e] <= ' '
      invariant i <= e <= |t| && Skip(t[e..]) == Skip(t[i..])
    {
      assert t[e..][1..] == t[e + 1..];
      e := e + 1;
    }
  }

  // The digit loop of parse_number.
  method ReadDigits(t: string, i: nat, n0: nat) returns (n: nat, e: nat)
    requires i <= |t|
    ensures i <= e <= |t| && Digits(t[i..], n0) == (n, t[e..])
  {
    n, e := n0, i;
    while e < |t| && IsDigit(t[e])
      invariant i <= e <= |t| && Digits(t[i..], n0) == Digits(t[e..], n)
    {
      assert t[e..][1..] == t[e + 1..];
      n := n * 10 + DigitValue(t[e]);
      e := e + 1;
    }
  }

  // parse_number behind the sign.
  method ReadMagnitude(t: string, i: nat) returns (n: nat, e: nat)
    requires i <= |t|
    ensures i <= e <= |t| && Magnitude(t[i..]) == (n, t[e..]) && (i < |t| && IsDigit(t[i]) ==> i < e)
  {
    ghost var v := t[i..];
    n, e := 0, i;
    if e < |t| && t[e] == '0' {
      assert v[1..] == t[e + 1..];
      e := e + 1;
    }
    ghost var w := t[e..];
    if e < |t| && '1' <= t[e] <= '9' {
      assert w[1..] == t[e + 1..];
      n, e := ReadDigits(t, e + 1, DigitValue(t[e]));
    }
  }

  // The fraction in parse_number: its digits go on with n, and places counts them.
  method ReadFraction(t: string, i: nat, n0: nat) returns (n: nat, places: nat, e: nat)
    requires i <= |t|
    ensures i <= e <= |t| && Fraction(n0, t[i..]) == (n, places, t[e..])
  {
    n, places, e := n0, 0, i;
    if i + 1 < |t| && t[i] == '.' && IsDigit(t[i + 1]) {
      assert t[i..][1..] == t[i + 1..];
      n, e := ReadDigits(t, i + 1, n0);
      places := e - (i + 1);
    }
  }

  // The exponent in parse_number.
  method ReadExponent(t: string, i: nat) returns (x: int, e: nat)
    requires i <= |t|
    ensures i <= e <= |t| && Exponent(t[i..]) == (x, t[e..])
  {
    x, e := 0, i;
    ghost var w := t[i..];
    if i < |t| && (t[i] == 'e' || t[i] == 'E') {
      assert w[1..] == t[i + 1..] && (|w| >= 2 ==> w[2..] == t[i + 2..]);
      var signed := i + 1 < |t| && (t[i + 1] == '+' || t[i + 1] == '-');
      var n;
      n, e := ReadDigits(t, if signed then i + 2 else i + 1, 0);
      x := if signed && t[i + 1] == '-' then -(n as int) else n;
    }
  }

  // parse_number.
  method ReadNumber(item: Item, t: string, i: nat) returns (e: nat)
    requires i < |t| && (t[i] == '-' || IsDigit(t[i]))
    modifies item`kind, item`valueint, item`valuedouble
    ensures i < e <= |t| && item.kind == KNumber && ParseNumber(t[i..]) == Got(Num(item.valuedouble), t[e..])
    ensures InInt(item.valuedouble) ==> item.valueint == Truncated(item.valuedouble)
  {
    assert t[i..][1..] == t[i + 1..];
    var sign: int, n, places, x := 1, 0, 0, 0;
    e := i;
    if t[i] == '-' {
      sign, e := -1, i + 1;
    }
    n, e := ReadMagnitude(t, e);
    n, places, e := ReadFraction(t, e, n);
    x, e := ReadExponent(t, e);
    item.valuedouble := NumberOf(sign * n, x - places);
    item.valueint := if InInt(item.valuedouble) then Truncated(item.valuedouble) else 0;
    item.kind := KNumber;
  }

  // A new item with nothing in it.
  ghost predicate IsNew(item: Item)
    reads item
  {
    item.kind == KNone && item.child == null && item.kids == []
  }

  // A finished item with its own children.
  ghost predicate Finished(item: Item, made: set<Item>)
    reads item, made
  {
    AllOk(made) && item !in made && Within(item, made) && Owns(item) && item.Ok(made)
  }

  // Between two rounds of the loops: the children done, was the last of them, are linked below item.
  ghost predicate Growing(item: Item, done: seq<(string, Json)>, was: Item?, made: set<Item>)
    reads item`child, item`kids, made
  {
    && AllOk(made) && item !in made && Within(item, made) && (forall q :: LookItem(q) ==> item.HasKids(done, made, null))
    && was == item.Youngest()
  }

  // Within a round: a new item last is linked behind them.
  ghost predicate Linked(item: Item, done: seq<(string, Json)>, last: Item, made: set<Item>)
    reads item`child, item`kids, made, last`next, last`prev
  {
    && AllOk(made) && item !in made && Within(item, made) && last !in made && item != last
    && (forall q :: LookItem(q) ==> item.HasKids(done, made, last))
    && last.next == null && last.prev == item.Youngest()
  }

  lemma NoneYet(item: Item, made: set<Item>)
    requires AllOk(made) && item !in made && item.child == null && item.kids == []
    ensures Growing(item, [], null, made)
  {
  }

  // The closing character: the item is finished.
  lemma Grown(item: Item, made: set<Item>)
    requires (item.kind == KArray && item.tree.Arr?) || (item.kind == KObject && item.tree.Obj?)
    requires Growing(item, Children(item.tree.child), item.Youngest(), made) == true
    ensures Finished(item, made)
  {
    assert LookItem(0);
  }

  // Make a new item and link it behind the children of item.
  method LinkItem(item: Item, was: Item?, ghost done: seq<(string, Json)>, ghost made: set<Item>) returns (last: Item)
    requires Growing(item, done, was, made)
    modifies item`child, if was == null then {} else {was}
    ensures fresh(last) && IsNew(last) && last.name == "" && Linked(item, done, last, made) == true
    ensures item.kids == old(item.kids)
  {
    last := new Item();
    assert LookItem(0);
    if was == null {
      LinkFirst(item, last, made);
    } else {
      LinkBehind(item, was, last, done, made);
    }
  }

  method LinkFirst(item: Item, last: Item, ghost made: set<Item>)
    requires AllOk(made) && item !in made && item.kids == []
    modifies item`child
    ensures AllOk(made) && item.HasKids([], made, last)
  {
    item.child := last;
  }

  method LinkBehind(item: Item, was: Item, last: Item, ghost done: seq<(string, Json)>, ghost made: set<Item>)
    requires AllOk(made) && item !in made && item.HasKids(done, made, null) && done != [] && was == item.kids[|done| - 1]
    requires last !in made && last != item
    modifies was`next, last`prev
    ensures last.prev == was && AllOk(made) == true && item.HasKids(done, made, last) == true
  {
    assert was in made && was.owner == item;
    KidsDiffer(item, made, |done| - 1);
    SetNext(item, was, last, made);
    last.prev := was;
  }

  // child->next = new_item: the row goes on, and finished items are not disturbed.
  method SetNext(item: Item, was: Item, last: Item, ghost made: set<Item>)
    requires AllOk(made) && item !in made && was.owner == item
    requires item.Chained(null) && item.kids != [] && was == item.kids[|item.kids| - 1]
    requires forall i :: 0 <= i < |item.kids| - 1 ==> item.kids[i] != was
    modifies was`next
    ensures item.Chained(last) && AllOk(made)
  {
    assert LookItems(0);
    forall x | x in made ensures was !in x.kids {
      assert Owns(x);
    }
    was.next := last;
    forall x | x in made ensures x.Ok(made) {
    }
  }

  // A child occurs once in the row.
  lemma KidsDiffer(item: Item, made: set<Item>, n: nat)
    requires item.Chained(null) && n + 1 == |item.kids|
    ensures forall i :: 0 <= i < n ==> item.kids[i] != item.kids[n]
  {
    assert item.kids[n].next == null;
    forall i | 0 <= i < n ensures item.kids[i] != item.kids[n] {
      assert item.kids[i].next == item.kids[i + 1];
    }
  }

  // Account for a finished child.
  ghost method AddKid(item: Item, last: Item, m: (string, Json), done: seq<(string, Json)>, made: set<Item>, all: set<Item>)
    requires last.name == m.0 && last.tree == m.1
    requires Linked(item, done, last, made) == true && made <= all && item !in all && Finished(last, all) == true
    modifies item`kids, last`owner
    ensures Growing(item, done + [m], last, all + {last})
  {
    assert LookItem(0);
    Adopt(item, last, done, made, all);
    AllMore(all, last);
  }

  ghost method Adopt(item: Item, last: Item, done: seq<(string, Json)>, made: set<Item>, all: set<Item>)
    requires item !in all && last !in all && last != item && item.HasKids(done, made, last) && made <= all
    requires last.next == null && last.prev == item.Youngest()
    modifies item`kids, last`owner
    ensures item.HasKids(done + [(last.name, last.tree)], all + {last}, null) && item.kids == old(item.kids) + [last]
  {
    var ks := item.kids;
    forall i | 0 <= i < |ks| ensures ks[i] != last && ks[i] in made {
      assert ks[i].owner == item;
    }
    item.kids := ks + [last];
    last.owner := item;
  }

  lemma AllMore(made: set<Item>, last: Item)
    requires AllOk(made) && last.Ok(made) && Within(last, made) && Owns(last)
    ensures AllOk(made + {last})
  {
    assert LookItems(0);
    forall x | x in made + {last} ensures x.Ok(made + {last}) {
      OkMore(x, made, made + {last});
    }
  }

  lemma OkMore(x: Item, made: set<Item>, all: set<Item>)
    requires x.Ok(made) && made <= all
    ensures x.Ok(all)
  {
    assert LookItem(0);
  }

  // What is parsed, behind a key: the methods below carry it along unopened. ---------------------

  ghost predicate IsValue(u: string, r: Parsed<Json>) {
    forall q :: LookText(q) ==> ParseValue(u) == r
  }

  // An array or an object, behind its first character.
  ghost predicate IsBody(u: string, close: char, r: Parsed<Json>) {
    forall q :: LookText(q) ==> (if close == ']' then ParseArray(u) else ParseObject(u)) == r
  }

  lemma ValueIsWord(u: string)
    ensures StartsWith(u, "null") ==> IsValue(u, Got(Null, u[4..]))
    ensures StartsWith(u, "false") ==> IsValue(u, Got(False, u[5..]))
    ensures StartsWith(u, "true") ==> IsValue(u, Got(True, u[4..]))
  {
    assert StartsWith(u, "null") ==> u[..4][0] == 'n';
    assert StartsWith(u, "false") ==> u[..5][0] == 'f';
    assert StartsWith(u, "true") ==> u[..4][0] == 't';
  }

  lemma ValueIsString(u: string, s: Parsed<string>)
    requires u != "" && u[0] == '"' && IsString(u, s)
    ensures IsValue(u, if !s.Got? then Failed(s) else Got(Str(s.value), s.rest))
  {
    assert LookText(0);
  }

  lemma ValueIsNumber(u: string)
    requires u != "" && (u[0] == '-' || IsDigit(u[0]))
    ensures IsValue(u, ParseNumber(u))
  {
  }

  lemma ValueIsBody(u: string, close: char, r: Parsed<Json>)
    requires u != "" && IsBody(u[1..], close, r)
    requires (u[0] == '[' && close == ']') || (u[0] == '{' && close == '}')
    ensures IsValue(u, r)
  {
    assert LookText(0);
  }

  lemma ValueIsNone(u: string)
    requires u != "" ==> u[0] != '"' && u[0] != '-' && !IsDigit(u[0]) && u[0] != '[' && u[0] != '{'
    requires !StartsWith(u, "null") && !StartsWith(u, "false") && !StartsWith(u, "true")
    ensures IsValue(u, Fail)
  {
  }

  // The children of an array or an object, by their closing character.
  ghost function ParseRow(u: string, close: char): Parsed<List> {
    if close == ']' then ParseItems(u) else ParseMembers(u)
  }

  ghost function ParseChild(u: string, close: char): Parsed<(string, Json)> {
    Trimmed(if close == ']' then Named("", ParseValue(Skip(u))) else ParseMember(u))
  }

  // A result, and the white space behind it.
  ghost function Trimmed<T>(r: Parsed<T>): Parsed<T> {
    if !r.Got? then Failed(r) else Got(r.value, Skip(r.rest))
  }

  ghost function Named(name: string, r: Parsed<Json>): Parsed<(string, Json)> {
    if !r.Got? then Failed(r) else Got((name, r.value), r.rest)
  }

  ghost predicate IsRow(u: string, close: char, r: Parsed<List>) {
    forall q :: LookText(q) ==> ParseRow(u, close) == r
  }

  ghost predicate IsChild(u: string, close: char, r: Parsed<(string, Json)>) {
    forall q :: LookText(q) ==> ParseChild(u, close) == r
  }

  // After the children before and m, the text w decides about the row at u.
  ghost predicate RowAt(u: string, close: char, before: seq<(string, Json)>, m: (string, Json), w: string) {
    forall q :: LookText(q) ==> ParseRow(u, close) == Prepend(before, EndOrMore(m.0, m.1, w, close))
  }

  // A value with the white space around it.
  ghost predicate IsSpaced(u: string, r: Parsed<Json>) {
    forall q :: LookText(q) ==> Trimmed(ParseValue(Skip(u))) == r
  }

  lemma SpacedIsValue(u: string, v: Parsed<Json>)
    requires IsValue(Skip(u), v)
    ensures IsSpaced(u, Trimmed(v))
  {
    assert LookText(0);
  }

  // A member's name is read; its value is behind w.
  ghost predicate IsNamed(u: string, name: string, w: string) {
    forall q :: LookText(q) ==> ParseMember(u) == Named(name, ParseValue(Skip(w)))
  }

  lemma ItemIsValue(u: string, v: Parsed<Json>)
    requires IsSpaced(u, v)
    ensures IsChild(u, ']', Named("", v))
  {
    assert LookText(0);
  }

  lemma MemberIsValue(u: string, name: string, w: string, v: Parsed<Json>)
    requires IsNamed(u, name, w) && IsSpaced(w, v)
    ensures IsChild(u, '}', Named(name, v))
  {
    assert LookText(0);
  }

  // The loops between two rounds: before are the children done, m the last one parsed.
  ghost predicate Between(u: string, close: char, before: seq<(string, Json)>, m: Parsed<(string, Json)>, t: string, p: int) {
    if !m.Got? then p < 0 && IsRow(u, close, Failed(m))
    else 0 <= p <= |t| && RowAt(u, close, before, m.value, t[p..])
  }

  lemma RowBegins(u: string, close: char, m: Parsed<(string, Json)>, t: string, i: nat, p: int)
    requires IsChild(u, close, m) == true && Reached(m, t, i, p) == true && (close == ']' || close == '}')
    ensures Between(u, close, [], m, t, p)
  {
    assert LookText(0);
    RowStep(u, close);
    if m.Got? {
      var e := EndOrMore(m.value.0, m.value.1, m.rest, close);
      assert Prepend([], e) == e;
    }
  }

  // Parsing a row begins with its first child.
  lemma RowStep(u: string, close: char)
    requires close == ']' || close == '}'
    ensures ParseRow(u, close) == (var m := ParseChild(u, close); if !m.Got? then Failed(m) else EndOrMore(m.value.0, m.value.1, m.rest, close))
  {
  }

  lemma RowGoesOn(u: string, close: char, before: seq<(string, Json)>, m: Parsed<(string, Json)>, t: string, q: nat,
                  next: Parsed<(string, Json)>, p: int)
    requires q < |t| && Between(u, close, before, m, t, q) == true && t[q] == ',' && (close == ']' || close == '}')
    requires IsChild(t[q + 1..], close, next) == true && Reached(next, t, q + 1, p) == true
    ensures Between(u, close, before + [m.value], next, t, p)
  {
    assert LookText(0);
    assert t[q..][1..] == t[q + 1..];
    RowBegins(t[q + 1..], close, next, t, q + 1, p);
    PrependMore(before, m.value.0, m.value.1, ParseRow(t[q + 1..], close));
    if next.Got? {
      var e := EndOrMore(next.value.0, next.value.1, next.rest, close);
      assert Prepend([], e) == e;
    }
  }

  // What the loops end with.
  ghost function RowResult(close: char, before: seq<(string, Json)>, m: Parsed<(string, Json)>, t: string, p: int): Parsed<List> {
    if !m.Got? then Failed(m)
    else if 0 <= p < |t| && t[p] == close then Got(Behind(before, Node(m.value.0, m.value.1, End)), t[p + 1..])
    else Fail
  }

  lemma RowEnds(u: string, close: char, before: seq<(string, Json)>, m: Parsed<(string, Json)>, t: string, p: int)
    requires Between(u, close, before, m, t, p) == true && (0 <= p < |t| ==> t[p] != ',')
    ensures var r := RowResult(close, before, m, t, p);
      IsRow(u, close, r) && (r.Got? ==> Children(r.value) == before + [m.value])
  {
    assert LookText(0);
    if m.Got? {
      if p < |t| {
        assert t[p..][1..] == t[p + 1..];
      }
      ChildrenBehind(before, Node(m.value.0, m.value.1, End));
      assert Children(Node(m.value.0, m.value.1, End)) == [m.value];
    }
  }

  lemma BodyIsEmpty(u: string, close: char)
    requires (close == ']' || close == '}') && Skip(u) != "" && Skip(u)[0] == close
    ensures IsBody(u, close, Got(if close == ']' then Arr(End) else Obj(End), Skip(u)[1..]))
  {
  }

  lemma BodyIsRow(u: string, close: char, l: Parsed<List>)
    requires (close == ']' || close == '}') && (Skip(u) != "" ==> Skip(u)[0] != close) && IsRow(Skip(u), close, l)
    ensures IsBody(u, close, if !l.Got? then Failed(l) else Got(if close == ']' then Arr(l.value) else Obj(l.value), l.rest))
  {
    assert LookText(0);
  }

  lemma PrependMore(before: seq<(string, Json)>, name: string, v: Json, r: Parsed<List>)
    ensures Prepend(before, if !r.Got? then Failed(r) else Got(Node(name, v, r.value), r.rest)) == Prepend(before + [(name, v)], r)
  {
    if r.Got? {
      BehindMore(before, name, v, r.value);
    }
  }

  // The parser. --------------------------------------------------------------------------------

  // The keywords in parse_value.
  method ReadWord(item: Item, t: string, i: nat) returns (e: int, ghost r: Parsed<Json>)
    requires i <= |t|
    modifies item`kind, item`valueint, item`tree
    ensures e >= 0 ==> IsValue(t[i..], r) == true && Reached(r, t, i, e) && r.value == item.tree
    ensures e >= 0 ==> (item.tree == Null && item.kind == KNull) || (item.tree == False && item.kind == KFalse)
                       || (item.tree == True && item.kind == KTrue)
    ensures e < 0 ==> e == -1 && r == Fail && item.kind == old(item.kind)
    ensures e < 0 ==> !StartsWith(t[i..], "null") && !StartsWith(t[i..], "false") && !StartsWith(t[i..], "true")
  {
    ghost var u := t[i..];
    ValueIsWord(u);
    e, r := -1, Fail;
    if StartsWith(t[i..], "null") {
      item.kind, item.tree := KNull, Null;
      e, r := i + 4, Got(Null, u[4..]);
    } else if StartsWith(t[i..], "false") {
      item.kind, item.tree := KFalse, False;
      e, r := i + 5, Got(False, u[5..]);
    } else if StartsWith(t[i..], "true") {
      item.kind, item.tree := KTrue, True;
      item.valueint := 1;
      e, r := i + 4, Got(True, u[4..]);
    }
  }

  // The values without children in parse_value, if the text begins with one.
  method ReadScalar(item: Item, t: string, i: nat, ghost made: set<Item>)
    returns (scalar: bool, e: int, ghost r: Parsed<Json>)
    requires i <= |t| && IsNew(item) && AllOk(made) && item !in made
    modifies item`kind, item`valueint, item`valuedouble, item`valuestring, item`tree
    ensures scalar ==> IsValue(t[i..], r) == true && Reached(r, t, i, e) == true
    ensures scalar && e >= 0 ==> r.value == item.tree && Finished(item, made) == true
    ensures !scalar ==> item.kind == KNone && e == -1 && r == Fail
    ensures !scalar ==> !StartsWith(t[i..], "null") && !StartsWith(t[i..], "false") && !StartsWith(t[i..], "true")
    ensures !scalar && i < |t| ==> t[i] != '"' && t[i] != '-' && !IsDigit(t[i])
  {
    ghost var u := t[i..];
    e, r := ReadWord(item, t, i);
    scalar := true;
    if e >= 0 {
    } else if i < |t| && t[i] == '"' {
      var s;
      ghost var x;
      s, e, x := ReadString(t, i);
      ValueIsString(u, x);
      r := Failed(x);
      if e >= 0 {
        item.valuestring := s;
        item.kind, item.tree := KString, Str(s);
        r := Got(Str(s), x.rest);
      }
    } else if i < |t| && (t[i] == '-' || IsDigit(t[i])) {
      ValueIsNumber(u);
      e := ReadNumber(item, t, i);
      r := ParseNumber(u);
      item.tree := Num(item.valuedouble);
    } else {
      scalar := false;
    }
  }

  // parse_value; -1 is the null pointer. made are the items finished before, all those after.
  method ReadValue(item: Item, t: string, i: nat, ghost made: set<Item>)
    returns (e: int, ghost r: Parsed<Json>, ghost all: set<Item>)
    requires i <= |t| && IsNew(item) && AllOk(made) && item !in made
    modifies item`kind, item`valueint, item`valuedouble, item`valuestring, item`child, item`kids, item`tree
    ensures IsValue(t[i..], r) == true && Reached(r, t, i, e)
    ensures made <= all && fresh(all - made)
    ensures e >= 0 ==> r.value == item.tree && Finished(item, all) == true
    decreases |t| - i, 1
  {
    all := made;
    ghost var u := t[i..];
    var scalar;
    scalar, e, r := ReadScalar(item, t, i, made);
    if scalar {
    } else if i < |t| && t[i] == '[' {
      assert u[1..] == t[i + 1..];
      e, r, all := ReadArray(item, t, i + 1, made);
      ValueIsBody(u, ']', r);
    } else if i < |t| && t[i] == '{' {
      assert u[1..] == t[i + 1..];
      e, r, all := ReadObject(item, t, i + 1, made);
      ValueIsBody(u, '}', r);
    } else {
      ValueIsNone(u);
    }
  }

  // parse_array, behind the bracket.
  method ReadArray(item: Item, t: string, i: nat, ghost made: set<Item>)
    returns (e: int, ghost r: Parsed<Json>, ghost all: set<Item>)
    requires i <= |t| && IsNew(item) && AllOk(made) && item !in made
    modifies item`kind, item`child, item`kids, item`tree
    ensures IsBody(t[i..], ']', r) == true && Reached(r, t, i, e)
    ensures made <= all && fresh(all - made)
    ensures e >= 0 ==> r.value == item.tree && Finished(item, all) == true
    decreases |t| - i, 5
  {
    item.kind, item.tree := KArray, Arr(End);
    ghost var l: Parsed<List> := Got(End, "");
    all := made;
    NoneYet(item, made);
    var p := SkipText(t, i);
    if p < |t| && t[p] == ']' {
      e := p + 1;
      BodyIsEmpty(t[i..], ']');
    } else {
      e, l, all := ReadItems(item, t, p, made);
      BodyIsRow(t[i..], ']', l);
      if e >= 0 {
        item.tree := Arr(l.value);
      }
    }
    if e >= 0 {
      Grown(item, all);
    }
    r := if e < 0 then Failed(l) else Got(item.tree, t[e..]);
  }

  // A value with the white space around it.
  method ReadSpaced(item: Item, t: string, i: nat, ghost made: set<Item>)
    returns (e: int, ghost r: Parsed<Json>, ghost all: set<Item>)
    requires i <= |t| && IsNew(item) && AllOk(made) && item !in made
    modifies item`kind, item`valueint, item`valuedouble, item`valuestring, item`child, item`kids, item`tree
    ensures IsSpaced(t[i..], r) == true && Reached(r, t, i, e)
    ensures made <= all && fresh(all - made)
    ensures e >= 0 ==> r.value == item.tree && Finished(item, all) == true
    decreases |t| - i, 2
  {
    e := SkipText(t, i);
    ghost var v;
    e, v, all := ReadValue(item, t, e, made);
    SpacedIsValue(t[i..], v);
    r := Trimmed(v);
    if e >= 0 {
      e := SkipText(t, e);
    }
  }

  // One item of an array: link a new item, and parse its value behind position i.
  method OneItem(item: Item, was: Item?, t: string, i: nat, ghost done: seq<(string, Json)>, ghost made: set<Item>)
    returns (last: Item, p: int, ghost r: Parsed<(string, Json)>, ghost all: set<Item>)
    requires i <= |t| && Growing(item, done, was, made)
    modifies item`child, item`kids, if was == null then {} else {was}
    ensures IsChild(t[i..], ']', r) == true && made <= all && fresh(all - made)
    ensures Reached(r, t, i, p) == true
    ensures p >= 0 ==> fresh(last) && Growing(item, done + [r.value], last, all) == true
    decreases |t| - i, 3
  {
    last := LinkItem(item, was, done, made);
    ghost var v;
    p, v, all := ReadSpaced(last, t, i, made);
    r := Named("", v);
    ItemIsValue(t[i..], v);
    assert Reached(r, t, i, p) == true;
    if p >= 0 {
      AddKid(item, last, r.value, done, made, all);
      all := all + {last};
    }
  }

  // A comma and one more item of the row that begins at u.
  method NextItem(item: Item, was: Item, t: string, q: nat, ghost u: string,
    ghost before: seq<(string, Json)>, ghost m: Parsed<(string, Json)>, ghost made: set<Item>)
    returns (last: Item, p: int, ghost r: Parsed<(string, Json)>, ghost all: set<Item>)
    requires q < |t| && t[q] == ',' && m.Got? && Growing(item, before + [m.value], was, made) == true
    requires Between(u, ']', before, m, t, q) == true
    modifies item`child, item`kids, was
    ensures made <= all && fresh(all - made) && Between(u, ']', before + [m.value], r, t, p) == true
    ensures p >= 0 ==> q < p <= |t| && r.Got? && fresh(last)
    ensures p >= 0 ==> Growing(item, before + [m.value] + [r.value], last, all) == true
    decreases |t| - q, 0
  {
    last, p, r, all := OneItem(item, was, t, q + 1, before + [m.value], made);
    RowGoesOn(u, ']', before, m, t, q, r, p);
  }

  // The body of parse_array, from the first item on.
  method ReadItems(item: Item, t: string, i: nat, ghost made: set<Item>)
    returns (e: int, ghost r: Parsed<List>, ghost all: set<Item>)
    requires i <= |t| && Growing(item, [], null, made)
    modifies item`child, item`kids
    ensures IsRow(t[i..], ']', r) == true && Reached(r, t, i, e) == true && made <= all && fresh(all - made)
    ensures e >= 0 ==> Growing(item, Children(r.value), item.Youngest(), all) == true
    decreases |t| - i, 4
  {
    var last, p;
    ghost var u, before, m := t[i..], [], Fail;
    last, p, m, all := OneItem(item, null, t, i, [], made);
    RowBegins(u, ']', m, t, i, p);
    while p >= 0 && p < |t| && t[p] == ','
      invariant p >= 0 ==> i < p <= |t| && m.Got? && Growing(item, before + [m.value], last, all) == true && fresh(last)
      invariant made <= all && fresh(all - made)
      invariant Between(u, ']', before, m, t, p) == true
      decreases p >= 0, |t| - p
    {
      ghost var was := m;
      last, p, m, all := NextItem(item, last, t, p, u, before, was, all);
      before := before + [was.value];
    }
    RowEnds(u, ']', before, m, t, p);
    r := RowResult(']', before, m, t, p);
    e := if p >= 0 && p < |t| && t[p] == ']' then p + 1 else -1;
  }

  // parse_object, behind the brace.
  method ReadObject(item: Item, t: string, i: nat, ghost made: set<Item>)
    returns (e: int, ghost r: Parsed<Json>, ghost all: set<Item>)
    requires i <= |t| && IsNew(item) && AllOk(made) && item !in made
    modifies item`kind, item`child, item`kids, item`tree
    ensures IsBody(t[i..], '}', r) == true && Reached(r, t, i, e)
    ensures made <= all && fresh(all - made)
    ensures e >= 0 ==> r.value == item.tree && Finished(item, all) == true
    decreases |t| - i, 5
  {
    item.kind, item.tree := KObject, Obj(End);
    ghost var l: Parsed<List> := Got(End, "");
    all := made;
    NoneYet(item, made);
    var p := SkipText(t, i);
    if p < |t| && t[p] == '}' {
      e := p + 1;
      BodyIsEmpty(t[i..], '}');
    } else {
      e, l, all := ReadMembers(item, t, p, made);
      BodyIsRow(t[i..], '}', l);
      if e >= 0 {
        item.tree := Obj(l.value);
      }
    }
    if e >= 0 {
      Grown(item, all);
    }
    r := if e < 0 then Failed(l) else Got(item.tree, t[e..]);
  }

  // One member of an object: link a new item, and parse its name and its value.
  method OneMember(item: Item, was: Item?, t: string, i: nat, ghost done: seq<(string, Json)>, ghost made: set<Item>)
    returns (last: Item, p: int, ghost r: Parsed<(string, Json)>, ghost all: set<Item>)
    requires i <= |t| && Growing(item, done, was, made)
    modifies item`child, item`kids, if was == null then {} else {was}
    ensures IsChild(t[i..], '}', r) == true && made <= all && fresh(all - made)
    ensures Reached(r, t, i, p) == true
    ensures p >= 0 ==> fresh(last) && Growing(item, done + [r.value], last, all) == true
    decreases |t| - i, 3
  {
    last, p, r := NamedItem(item, was, t, i, done, made);
    all := made;
    if p >= 0 {
      ghost var v, n := Fail, p;
      p, v, all := ReadSpaced(last, t, p, made);
      r := Named(last.name, v);
      MemberIsValue(t[i..], last.name, t[n..], v);
      if p >= 0 {
        AddKid(item, last, r.value, done, made, all);
        all := all + {last};
      }
    }
  }

  // Link a new item, and parse its name; p is behind the colon.
  method NamedItem(item: Item, was: Item?, t: string, i: nat, ghost done: seq<(string, Json)>, ghost made: set<Item>)
    returns (last: Item, p: int, ghost stop: Parsed<(string, Json)>)
    requires i <= |t| && Growing(item, done, was, made)
    modifies item`child, if was == null then {} else {was}
    ensures fresh(last) && IsNew(last) && item.kids == old(item.kids)
    ensures p >= 0 ==> i < p <= |t| && Linked(item, done, last, made) == true && IsNamed(t[i..], last.name, t[p..]) == true
    ensures p < 0 ==> !stop.Got? && IsChild(t[i..], '}', stop) == true
  {
    last := LinkItem(item, was, done, made);
    var name;
    name, p, stop := MemberName(t, i);
    if p >= 0 {
      last.name := name;
    }
  }

  // The name of a member and the colon; p is behind it.
  method MemberName(t: string, i: nat) returns (name: string, p: int, ghost stop: Parsed<(string, Json)>)
    requires i <= |t|
    ensures p >= 0 ==> i < p <= |t| && IsNamed(t[i..], name, t[p..])
    ensures p < 0 ==> !stop.Got? && IsChild(t[i..], '}', stop)
  {
    p := SkipText(t, i);
    ghost var x;
    name, p, x := ReadString(t, p);
    assert LookText(0);
    stop := if x.Got? then Fail else Failed(x);
    if p >= 0 {
      p := SkipText(t, p);
      if p == |t| || t[p] != ':' {
        p := -1;
      } else {
        assert t[p..][1..] == t[p + 1..];
        p := p + 1;
      }
    }
  }

  // A comma and one more member of the row that begins at u.
  method NextMember(item: Item, was: Item, t: string, q: nat, ghost u: string,
    ghost before: seq<(string, Json)>, ghost m: Parsed<(string, Json)>, ghost made: set<Item>)
    returns (last: Item, p: int, ghost r: Parsed<(string, Json)>, ghost all: set<Item>)
    requires q < |t| && t[q] == ',' && m.Got? && Growing(item, before + [m.value], was, made) == true
    requires Between(u, '}', before, m, t, q) == true
    modifies item`child, item`kids, was
    ensures made <= all && fresh(all - made) && Between(u, '}', before + [m.value], r, t, p) == true
    ensures p >= 0 ==> q < p <= |t| && r.Got? && fresh(last)
    ensures p >= 0 ==> Growing(item, before + [m.value] + [r.value], last, all) == true
    decreases |t| - q, 0
  {
    last, p, r, all := OneMember(item, was, t, q + 1, before + [m.value], made);
    RowGoesOn(u, '}', before, m, t, q, r, p);
  }

  // The body of parse_object, from the first member on.
  method ReadMembers(item: Item, t: string, i: nat, ghost made: set<Item>)
    returns (e: int, ghost r: Parsed<List>, ghost all: set<Item>)
    requires i <= |t| && Growing(item, [], null, made)
    modifies item`child, item`kids
    ensures IsRow(t[i..], '}', r) == true && Reached(r, t, i, e) == true && made <= all && fresh(all - made)
    ensures e >= 0 ==> Growing(item, Children(r.value), item.Youngest(), all) == true
    decreases |t| - i, 4
  {
    var last, p;
    ghost var u, before, m := t[i..], [], Fail;
    last, p, m, all := OneMember(item, null, t, i, [], made);
    RowBegins(u, '}', m, t, i, p);
    while p >= 0 && p < |t| && t[p] == ','
      invariant p >= 0 ==> i < p <= |t| && m.Got? && Growing(item, before + [m.value], last, all) == true && fresh(last)
      invariant made <= all && fresh(all - made)
      invariant Between(u, '}', before, m, t, p) == true
      decreases p >= 0, |t| - p
    {
      ghost var was := m;
      last, p, m, all := NextMember(item, last, t, p, u, before, was, all);
      before := before + [was.value];
    }
    RowEnds(u, '}', before, m, t, p);
    r := RowResult('}', before, m, t, p);
    e := if p >= 0 && p < |t| && t[p] == '}' then p + 1 else -1;
  }

  /** cJSON_Parse: the root item stands for the tree of the text, or there is none. Nothing is
   * promised where a string makes the parser read behind the text or write behind its memory. */
  method Parse(t: string) returns (root: Item?, ghost all: set<Item>)
    ensures ParseValue(Skip(t)).Fail? ==> root == null
    ensures ParseValue(Skip(t)).Got? ==> root != null && fresh(root) && fresh(all) && Finished(root, all) && root.tree == ParseValue(Skip(t)).value
  {
    var c := new Item();
    var p := SkipText(t, 0);
    assert t[0..] == t;
    var e;
    ghost var r;
    e, r, all := ReadValue(c, t, p, {});
    assert LookText(0);
    root := if e < 0 then null else c;
  }
}
