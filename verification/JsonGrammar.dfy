/**
 * The texts of RFC 8259: values however they are spelt, with white space wherever its section 2
 * allows it. The parser reads each of them as what it means.
 */
module JsonGrammar {
  import opened Json
  import opened JsonUnicode
  import opened JsonNumber
  import opened JsonParse

  // A value as it is spelt: a number by its digits, a string by its pieces and what they denote.
  datatype Source =
    | ANull
    | AFalse
    | ATrue
    | ANumber(neg: bool, ds: seq<nat>, fs: seq<nat>, x: Exp)
    | AString(ps: seq<Piece>, ucs: seq<nat>)
    | AnArray(items: Sources)
    | AnObject(items: Sources)

  datatype Sources = Nil | More(ps: seq<Piece>, ucs: seq<nat>, value: Source, next: Sources)

  ghost predicate Good(s: Source) {
    match s
    case ANumber(neg, ds, fs, x) => GoodInt(ds) && Decimal(fs) && GoodExp(x)
    case AString(ps, ucs) => AllDenote(ps, ucs)
    case AnArray(l) => GoodAll(l)
    case AnObject(l) => GoodAll(l)
    case _ => true
  }

  ghost predicate GoodAll(l: Sources) {
    l.More? ==> AllDenote(l.ps, l.ucs) && Good(l.value) && GoodAll(l.next)
  }

  // The tree it means. The items of an array have no names.
  ghost function Meaning(s: Source): Json
    requires Good(s)
  {
    match s
    case ANull => Null
    case AFalse => False
    case ATrue => True
    case ANumber(neg, ds, fs, x) => Num(Value(neg, ds, fs, x))
    case AString(ps, ucs) => Str(AllBytes(ps, ucs))
    case AnArray(l) => Arr(Meanings(l, false))
    case AnObject(l) => Obj(Meanings(l, true))
  }

  ghost function Meanings(l: Sources, named: bool): List
    requires GoodAll(l)
  {
    if l.Nil? then End else Node(if named then AllBytes(l.ps, l.ucs) else "", Meaning(l.value), Meanings(l.next, named))
  }

  // White space at each place where it is allowed: at the place that has n characters behind it, sp(n).
  ghost predicate White(sp: nat -> string) {
    forall n: nat, i :: 0 <= i < |sp(n)| ==> sp(n)[i] <= ' '
  }

  function Gap(sp: nat -> string, k: string): string {
    sp(|k|) + k
  }

  function Quoted(ps: seq<Piece>, k: string): string {
    "\"" + AllSpelt(ps, "\"" + k)
  }

  ghost function Spelling(s: Source, sp: nat -> string, k: string): string
    requires Good(s)
    decreases s, 1
  {
    match s
    case ANull => "null" + k
    case AFalse => "false" + k
    case ATrue => "true" + k
    case ANumber(neg, ds, fs, x) => NumberText(neg, ds, fs, x, k)
    case AString(ps, ucs) => Quoted(ps, k)
    case AnArray(l) => "[" + Gap(sp, if l.Nil? then "]" + k else Items(l, sp, "]" + k))
    case AnObject(l) => "{" + Gap(sp, if l.Nil? then "}" + k else Members(l, sp, "}" + k))
  }

  ghost function Items(l: Sources, sp: nat -> string, k: string): string
    requires GoodAll(l)
    decreases l, 0
  {
    if l.Nil? then k
    else Spelling(l.value, sp, Gap(sp, if l.next.Nil? then k else "," + Gap(sp, Items(l.next, sp, k))))
  }

  ghost function Members(l: Sources, sp: nat -> string, k: string): string
    requires GoodAll(l)
    decreases l, 0
  {
    if l.Nil? then k
    else Quoted(l.ps, Gap(sp, ":" + Gap(sp, Spelling(l.value, sp, After(l, sp, k)))))
  }

  // What stands behind the value of a member.
  ghost function After(l: Sources, sp: nat -> string, k: string): string
    requires l.More? && GoodAll(l)
    decreases l.next, 1
  {
    Gap(sp, if l.next.Nil? then k else "," + Gap(sp, Members(l.next, sp, k)))
  }

  // Reading. -------------------------------------------------------------------------------------

  lemma {:induction false} SkipWhite(w: string, k: string)
    requires forall i :: 0 <= i < |w| ==> w[i] <= ' '
    ensures Skip(w + k) == Skip(k)
  {
    if w == "" {
      assert w + k == k;
    } else {
      assert (w + k)[0] == w[0] && (w + k)[1..] == w[1..] + k;
      SkipWhite(w[1..], k);
    }
  }

  lemma SkipGap(sp: nat -> string, k: string)
    requires White(sp)
    ensures Skip(Gap(sp, k)) == Skip(k)
    ensures EndsNumber(k) ==> EndsNumber(Gap(sp, k))
  {
    SkipWhite(sp(|k|), k);
    assert sp(|k|) == "" ==> Gap(sp, k) == k;
  }

  lemma SpellingStarts(s: Source, sp: nat -> string, k: string)
    requires Good(s)
    ensures Starts(Spelling(s, sp, k)) && Skip(Spelling(s, sp, k)) == Spelling(s, sp, k)
  {
    if s.ANumber? {
      CharOfDigit(s.ds[0]);
      assert DigitsOf(s.ds, FractionOf(s.fs, ExpOf(s.x, k)))[0] == "0123456789"[s.ds[0]];
    }
  }

  /** Every text of the grammar is read as what it means, and what stands behind it is left. */
  lemma {:induction false} SourceReads(s: Source, sp: nat -> string, k: string)
    requires Good(s) && White(sp) && EndsNumber(k)
    ensures ParseValue(Spelling(s, sp, k)) == Got(Meaning(s), k)
    decreases s, 1
  {
    match s {
      case ANumber(neg, ds, fs, x) =>
        NumberIsRead(neg, ds, fs, x, k);
      case AString(ps, ucs) =>
        StringReads(ps, ucs, k);
      case AnArray(l) =>
        ArrayReads(l, sp, k);
        BracketFirst(Spelling(s, sp, k));
      case AnObject(l) =>
        ObjectReads(l, sp, k);
        BracketFirst(Spelling(s, sp, k));
      case _ =>
        KeywordsBack(k);
    }
  }

  lemma {:induction false} ArrayReads(l: Sources, sp: nat -> string, k: string)
    requires GoodAll(l) && White(sp) && EndsNumber(k)
    ensures var t := Spelling(AnArray(l), sp, k); t[0] == '[' && ParseArray(t[1..]) == Got(Arr(Meanings(l, false)), k)
    decreases l, 4
  {
    var u := Gap(sp, if l.Nil? then "]" + k else Items(l, sp, "]" + k));
    Tail('[', u);
    RowReads(l, sp, k, u);
  }

  lemma {:induction false} RowReads(l: Sources, sp: nat -> string, k: string, u: string)
    requires GoodAll(l) && White(sp) && u == Gap(sp, if l.Nil? then "]" + k else Items(l, sp, "]" + k))
    ensures ParseArray(u) == Got(Arr(Meanings(l, false)), k)
    decreases l, 3
  {
    if l.Nil? {
      SkipGap(sp, "]" + k);
      NoItems(u, k);
    } else {
      var m := Items(l, sp, "]" + k);
      SkipGap(sp, m);
      ItemsStart(l, sp, "]" + k);
      ItemsRead(l, sp, k);
      BehindBracket(u, m);
    }
  }

  lemma NoItems(t: string, k: string)
    requires Skip(t) == Skip("]" + k)
    ensures ParseArray(t) == Got(Arr(End), k)
  {
    Tail(']', k);
  }

  lemma ItemsStart(l: Sources, sp: nat -> string, close: string)
    requires l.More? && GoodAll(l)
    ensures var u := Items(l, sp, close); u != "" && u[0] != ']' && Skip(u) == u
  {
    SpellingStarts(l.value, sp, Gap(sp, if l.next.Nil? then close else "," + Gap(sp, Items(l.next, sp, close))));
  }

  lemma BehindBracket(t: string, u: string)
    requires Skip(t) == u && u != "" && u[0] != ']' && ParseItems(u).Got?
    ensures ParseArray(t) == Got(Arr(ParseItems(u).value), ParseItems(u).rest)
  {
  }

  lemma {:induction false} ItemsRead(l: Sources, sp: nat -> string, k: string)
    requires l.More? && GoodAll(l) && White(sp)
    ensures ParseItems(Items(l, sp, "]" + k)) == Got(Meanings(l, false), k)
    ensures ParseItems(Gap(sp, Items(l, sp, "]" + k))) == Got(Meanings(l, false), k)
    decreases l, 2
  {
    var close := "]" + k;
    var more := Gap(sp, Items(l.next, sp, close));
    var rest := if l.next.Nil? then close else "," + more;
    Tail(']', k);
    Tail(',', more);
    SkipGap(sp, rest);
    SkipGap(sp, Items(l, sp, close));
    SpellingStarts(l.value, sp, Gap(sp, rest));
    SourceReads(l.value, sp, Gap(sp, rest));
    assert Skip(rest) == rest;
    if l.next.More? {
      ItemsRead(l.next, sp, k);
    }
  }

  lemma {:induction false} ObjectReads(l: Sources, sp: nat -> string, k: string)
    requires GoodAll(l) && White(sp) && EndsNumber(k)
    ensures var t := Spelling(AnObject(l), sp, k); t[0] == '{' && ParseObject(t[1..]) == Got(Obj(Meanings(l, true)), k)
    decreases l, 5
  {
    var close := "}" + k;
    var u := Gap(sp, if l.Nil? then close else Members(l, sp, close));
    Tail('{', u);
    InsideReads(l, sp, k, u);
  }

  lemma {:induction false} InsideReads(l: Sources, sp: nat -> string, k: string, u: string)
    requires GoodAll(l) && White(sp) && u == Gap(sp, if l.Nil? then "}" + k else Members(l, sp, "}" + k))
    ensures ParseObject(u) == Got(Obj(Meanings(l, true)), k)
    decreases l, 4
  {
    if l.Nil? {
      SkipGap(sp, "}" + k);
      EmptyReads(u, k);
    } else {
      var m := Members(l, sp, "}" + k);
      SkipGap(sp, m);
      MembersStart(l, sp, "}" + k);
      MembersRead(l, sp, k);
      BehindBrace(u, m);
    }
  }

  lemma EmptyReads(t: string, k: string)
    requires Skip(t) == Skip("}" + k)
    ensures ParseObject(t) == Got(Obj(End), k)
  {
    Tail('}', k);
  }

  lemma MembersStart(l: Sources, sp: nat -> string, close: string)
    requires l.More? && GoodAll(l)
    ensures var u := Members(l, sp, close); u != "" && u[0] == '"' && Skip(u) == u
  {
  }

  lemma BehindBrace(t: string, u: string)
    requires Skip(t) == u && u != "" && u[0] == '"' && ParseMembers(u).Got?
    ensures ParseObject(t) == Got(Obj(ParseMembers(u).value), ParseMembers(u).rest)
  {
  }

  lemma {:induction false} MembersRead(l: Sources, sp: nat -> string, k: string)
    requires l.More? && GoodAll(l) && White(sp)
    ensures ParseMembers(Members(l, sp, "}" + k)) == Got(Meanings(l, true), k)
    ensures ParseMembers(Gap(sp, Members(l, sp, "}" + k))) == Got(Meanings(l, true), k)
    decreases l, 3
  {
    var close := "}" + k;
    var t, after := Members(l, sp, close), After(l, sp, close);
    MemberReads(l, sp, close, t);
    SkipGap(sp, t);
    AfterReads(l, sp, k, after);
  }

  // A name, a colon and a value.
  lemma {:induction false} MemberReads(l: Sources, sp: nat -> string, close: string, t: string)
    requires l.More? && GoodAll(l) && White(sp) && close != "" && EndsNumber(close) && t == Members(l, sp, close)
    ensures ParseMember(t) == Got((AllBytes(l.ps, l.ucs), Meaning(l.value)), After(l, sp, close))
    ensures Skip(t) == t && forall u :: Skip(u) == t ==> ParseMember(u) == ParseMember(t)
    decreases l, 2
  {
    var after := After(l, sp, close);
    var v := Spelling(l.value, sp, after);
    var colon := ":" + Gap(sp, v);
    StringReads(l.ps, l.ucs, Gap(sp, colon));
    SkipGap(sp, colon);
    Tail(':', Gap(sp, v));
    SkipGap(sp, v);
    SpellingStarts(l.value, sp, after);
    SkipGap(sp, if l.next.Nil? then close else "," + Gap(sp, Members(l.next, sp, close)));
    SourceReads(l.value, sp, after);
  }

  // Behind a member: the closing brace, or a comma and more members.
  lemma {:induction false} AfterReads(l: Sources, sp: nat -> string, k: string, after: string)
    requires l.More? && GoodAll(l) && White(sp) && after == After(l, sp, "}" + k)
    ensures EndOrMore(AllBytes(l.ps, l.ucs), Meaning(l.value), Skip(after), '}') == Got(Meanings(l, true), k)
    decreases l, 1
  {
    var close := "}" + k;
    var more := Gap(sp, Members(l.next, sp, close));
    Tail('}', k);
    Tail(',', more);
    SkipGap(sp, if l.next.Nil? then close else "," + more);
    if l.next.More? {
      MembersRead(l.next, sp, k);
    }
  }

  /** cJSON_Parse reads every text of the grammar, with anything behind it that does not continue a number. */
  method ParseText(t: string, ghost s: Source, ghost sp: nat -> string, ghost k: string)
    returns (root: Item?, ghost all: set<Item>)
    requires Good(s) && White(sp) && EndsNumber(k) && t == Gap(sp, Spelling(s, sp, k))
    ensures root != null && fresh(root) && fresh(all) && Finished(root, all) && root.tree == Meaning(s)
  {
    SkipGap(sp, Spelling(s, sp, k));
    SpellingStarts(s, sp, k);
    SourceReads(s, sp, k);
    root, all := Parse(t);
  }
}
