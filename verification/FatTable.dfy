/**
 * The bit layout of a FAT as a pure byte table: reading and writing entries of the three
 * FAT types, and the proof that a write is seen by exactly the entry it names.
 */
module FatTable {
  import opened Types

  datatype FatType = Fat12 | Fat16 | Fat32

  // Whether n entries fit into a table of so many bytes.
  predicate TableFits(t: FatType, n: nat, bytes: nat) {
    match t
    case Fat12 => n * 3 <= bytes * 2
    case Fat16 => n * 2 <= bytes
    case Fat32 => n * 4 <= bytes
  }

  // Number of values an entry of each type can hold.
  function Span(t: FatType): nat {
    match t
    case Fat12 => 0x1000
    case Fat16 => 0x1_0000
    case Fat32 => 0x1000_0000
  }

  // Byte offset of a FAT12 entry.
  function At12(c: nat): nat {
    c + c / 2
  }

  // The value get_fat extracts for entry c.
  function Entry(t: FatType, b: seq<byte>, c: nat): (v: nat)
    requires TableFits(t, c + 1, |b|)
    ensures v < Span(t)
  {
    match t
    case Fat12 => Unpack12(b[At12(c)], b[At12(c) + 1], c % 2 == 1)
    case Fat16 => LdWord(b, c * 2)
    case Fat32 => LdDword(b, c * 4) % 0x1000_0000
  }

  function Unpack12(lo: byte, hi: byte, odd: bool): (v: nat)
    ensures v < 0x1000
  {
    var wc := lo as int + 0x100 * hi as int;
    if odd then wc / 0x10 else wc % 0x1000
  }

  // The two bytes put_fat stores for a FAT12 entry, over the byte that was there.
  function Low12(was: byte, v: dword, odd: bool): byte {
    if odd then was % 0x10 + v % 0x10 * 0x10 else v % 0x100
  }

  function High12(was: byte, v: dword, odd: bool): byte {
    if odd then v / 0x10 % 0x100 else was / 0x10 * 0x10 + v / 0x100 % 0x10
  }

  // Bitwise or of numbers of n bits.
  function BitOr(n: nat, x: nat, y: nat): (r: nat)
    requires x < Pow2(n) && y < Pow2(n)
    ensures r < Pow2(n)
    ensures x == 0 ==> r == y
  {
    if n == 0 then 0
    else 2 * BitOr(n - 1, x / 2, y / 2) + if x % 2 == 1 || y % 2 == 1 then 1 else 0
  }

  function Pow2(n: nat): nat {
    if n == 0 then 1 else 2 * Pow2(n - 1)
  }

  // v | (was & 0xF0000000)
  function Merge32(v: dword, was: dword): (r: dword)
    ensures r % 0x1000_0000 == v % 0x1000_0000
    ensures v < 0x1000_0000 ==> r / 0x1000_0000 == was / 0x1000_0000
  {
    assert Pow2(4) == 16 by { assert Pow2(2) == 4; }
    v % 0x1000_0000 + 0x1000_0000 * BitOr(4, v / 0x1000_0000, was / 0x1000_0000)
  }

  // The table after put_fat stores v in entry c.
  function SetEntry(t: FatType, b: seq<byte>, c: nat, v: dword): (r: seq<byte>)
    requires TableFits(t, c + 1, |b|)
    ensures |r| == |b|
  {
    match t
    case Fat12 => Set12(b, c, v)
    case Fat16 => StWord(b, c * 2, v)
    case Fat32 => StDword(b, c * 4, Merge32(v, LdDword(b, c * 4)))
  }

  function Set12(b: seq<byte>, c: nat, v: dword): (r: seq<byte>)
    requires TableFits(Fat12, c + 1, |b|)
    ensures |r| == |b|
  {
    var bc := At12(c);
    b[bc := Low12(b[bc], v, c % 2 == 1)][bc + 1 := High12(b[bc + 1], v, c % 2 == 1)]
  }

  // Reading back what put_fat packed, and what the neighbour sees of it.
  lemma Pack12(lo: byte, hi: byte, v: dword, odd: bool)
    ensures Unpack12(Low12(lo, v, odd), High12(hi, v, odd), odd) == v % 0x1000
    ensures odd ==> Low12(lo, v, odd) % 0x10 == lo % 0x10
    ensures !odd ==> High12(hi, v, odd) / 0x10 == hi / 0x10
  {
    Split12(v);
    if odd {
      PackOdd(lo, v);
    } else {
      PackEven(hi, v);
    }
  }

  lemma PackOdd(lo: byte, v: nat)
    ensures (lo % 0x10 + v % 0x10 * 0x10) % 0x10 == lo % 0x10 && (lo % 0x10 + v % 0x10 * 0x10) / 0x10 == v % 0x10
  {
  }

  lemma PackEven(hi: byte, v: nat)
    ensures (hi / 0x10 * 0x10 + v / 0x100 % 0x10) / 0x10 == hi / 0x10
    ensures (hi / 0x10 * 0x10 + v / 0x100 % 0x10) % 0x10 == v / 0x100 % 0x10
  {
  }

  lemma Split12(v: nat)
    ensures v % 0x1000 == v % 0x10 + 0x10 * (v / 0x10 % 0x100)
    ensures v % 0x1000 == v % 0x100 + 0x100 * (v / 0x100 % 0x10)
  {
    SplitLow(v);
    SplitHigh(v);
  }

  lemma SplitLow(v: nat)
    ensures v % 0x1000 == v % 0x10 + 0x10 * (v / 0x10 % 0x100)
  {
    var w := v / 0x10;
    Mod12(w / 0x100, 0x10 * (w % 0x100) + v % 0x10);
  }

  lemma SplitHigh(v: nat)
    ensures v % 0x1000 == v % 0x100 + 0x100 * (v / 0x100 % 0x10)
  {
    var w := v / 0x100;
    Mod12(w / 0x10, 0x100 * (w % 0x10) + v % 0x100);
  }

  lemma Mod12(k: nat, m: nat)
    requires m < 0x1000
    ensures (0x1000 * k + m) % 0x1000 == m
  {
  }

  // What an even (odd) entry sees of the byte it shares with its neighbour.
  lemma SharedByte(lo: byte, hi: byte)
    ensures Unpack12(lo, hi, false) == lo as int + 0x100 * (hi % 0x10)
    ensures Unpack12(lo, hi, true) == lo / 0x10 + 0x10 * hi as int
  {
    var a, b, c, d := lo / 0x10, lo % 0x10, hi / 0x10, hi % 0x10;
    var w := lo as int + 0x100 * hi as int;
    assert w == 0x1000 * c + (lo as int + 0x100 * d) && w == 0x10 * (a + 0x10 * hi as int) + b;
  }

  lemma Entry12AfterSet(b: seq<byte>, c: nat, v: dword, d: nat)
    requires TableFits(Fat12, c + 1, |b|) && TableFits(Fat12, d + 1, |b|)
    ensures Entry(Fat12, Set12(b, c, v), d) == if d == c then v % 0x1000 else Entry(Fat12, b, d)
  {
    var r, bc, bd := Set12(b, c, v), At12(c), At12(d);
    Pack12(b[bc], b[bc + 1], v, c % 2 == 1);
    SharedByte(b[bd], b[bd + 1]);
    SharedByte(r[bd], r[bd + 1]);
    Apart12(c, d);
  }

  // Two FAT12 entries share at most one byte.
  lemma Apart12(c: nat, d: nat)
    ensures d < c ==> At12(d) + 1 < At12(c) || (At12(d) + 1 == At12(c) && c % 2 == 1 && d % 2 == 0)
    ensures c < d ==> At12(c) + 1 < At12(d) || (At12(c) + 1 == At12(d) && c % 2 == 0 && d % 2 == 1)
  {
  }

  // The entry when the first of its bytes has the new value v already.
  function Half12(was: nat, v: nat, odd: bool): nat {
    if odd then v % 0x10 + was / 0x10 * 0x10 else v % 0x100 + was / 0x100 * 0x100
  }

  // The table after the first of the two stores.
  function SetLow12(b: seq<byte>, c: nat, v: dword): (r: seq<byte>)
    requires TableFits(Fat12, c + 1, |b|)
    ensures |r| == |b|
  {
    b[At12(c) := Low12(b[At12(c)], v, c % 2 == 1)]
  }

  lemma HalfByte(lo: byte, hi: byte, v: dword, odd: bool)
    ensures Unpack12(Low12(lo, v, odd), hi, odd) == Half12(Unpack12(lo, hi, odd), v, odd)
  {
    var x := Low12(lo, v, odd);
    SharedByte(lo, hi);
    SharedByte(x, hi);
    if odd {
      assert x / 0x10 == v % 0x10;
      assert (lo / 0x10 + 0x10 * hi as int) / 0x10 == hi;
    } else {
      assert (lo as int + 0x100 * (hi % 0x10)) / 0x100 == hi % 0x10;
    }
  }

  /** After the first store of put_fat on FAT12 the entry has its half value, and every other entry is unchanged. */
  lemma EntryAfterHalf(b: seq<byte>, c: nat, v: dword, d: nat)
    requires TableFits(Fat12, c + 1, |b|) && TableFits(Fat12, d + 1, |b|)
    ensures var old_ := Entry(Fat12, b, d);
      Entry(Fat12, SetLow12(b, c, v), d) == if d == c then Half12(old_, v, c % 2 == 1) else old_
  {
    var r, bc, bd := SetLow12(b, c, v), At12(c), At12(d);
    HalfByte(b[bc], b[bc + 1], v, c % 2 == 1);
    Pack12(b[bc], b[bc + 1], v, c % 2 == 1);
    SharedByte(b[bd], b[bd + 1]);
    SharedByte(r[bd], r[bd + 1]);
    Apart12(c, d);
  }

  lemma EntrySet16(b: seq<byte>, c: nat, v: dword, d: nat)
    requires TableFits(Fat16, c + 1, |b|) && TableFits(Fat16, d + 1, |b|)
    ensures Entry(Fat16, SetEntry(Fat16, b, c, v), d) == if d == c then v % 0x1_0000 else Entry(Fat16, b, d)
  {
    var r := SetEntry(Fat16, b, c, v);
    if d == c {
      Split16(v);
    } else {
      assert r[2 * d] == b[2 * d] && r[2 * d + 1] == b[2 * d + 1];
    }
  }

  lemma Split16(v: nat)
    ensures v % 0x1_0000 == v % 0x100 + 0x100 * (v / 0x100 % 0x100)
  {
    var k, d := v / 0x100 / 0x100, v / 0x100 % 0x100;
    assert v == 0x1_0000 * k + 0x100 * d + v % 0x100;
  }

  // ST_DWORD followed by LD_DWORD.
  lemma DwordRoundTrip(b: seq<byte>, i: nat, v: dword)
    requires i + 3 < |b|
    ensures LdDword(StDword(b, i, v), i) == v
  {
    var w := v / 0x1_0000;
    Split16(v);
    Split16(w);
    assert v / 0x100_0000 == w / 0x100 && w / 0x100 < 0x100;
  }

  lemma DwordElsewhere(b: seq<byte>, i: nat, v: dword, j: nat)
    requires i + 3 < |b| && j + 3 < |b| && (j + 3 < i || i + 3 < j)
    ensures LdDword(StDword(b, i, v), j) == LdDword(b, j)
  {
  }

  lemma EntrySet32(b: seq<byte>, c: nat, v: dword, d: nat)
    requires TableFits(Fat32, c + 1, |b|) && TableFits(Fat32, d + 1, |b|)
    ensures Entry(Fat32, SetEntry(Fat32, b, c, v), d)
         == if d == c then v % 0x1000_0000 else Entry(Fat32, b, d)
  {
    var w := Merge32(v, LdDword(b, c * 4));
    if d == c {
      DwordRoundTrip(b, c * 4, w);
    } else {
      DwordElsewhere(b, c * 4, w, d * 4);
    }
  }

  /**
   * Read after write, for all three FAT types: the written entry reads back the value
   * reduced to the entry's width, and every other entry is unchanged, including FAT12
   * neighbours that share a byte.
   */
  lemma EntryAfterSet(t: FatType, b: seq<byte>, c: nat, v: dword, d: nat)
    requires TableFits(t, c + 1, |b|) && TableFits(t, d + 1, |b|)
    ensures Entry(t, SetEntry(t, b, c, v), d) == if d == c then v % Span(t) else Entry(t, b, d)
  {
    match t
    case Fat12 => Entry12AfterSet(b, c, v, d);
    case Fat16 => EntrySet16(b, c, v, d);
    case Fat32 => EntrySet32(b, c, v, d);
  }

  /** FAT32: the reserved top four bits of an entry survive every 28-bit write. */
  lemma ReservedBitsKept(b: seq<byte>, c: nat, v: dword)
    requires TableFits(Fat32, c + 1, |b|) && v < 0x1000_0000
    ensures LdDword(SetEntry(Fat32, b, c, v), c * 4) / 0x1000_0000 == LdDword(b, c * 4) / 0x1000_0000
  {
    DwordRoundTrip(b, c * 4, Merge32(v, LdDword(b, c * 4)));
  }

  // The on-disk format. ---------------------------------------------------------------------------

  /**
   * Value v stands in entry c: two bytes on FAT16 and the low 28 bits of four on FAT32, the lowest
   * first; on FAT12 a byte and the half of its neighbour that is next to it.
   */
  ghost predicate Stands(t: FatType, b: seq<byte>, c: nat, v: nat)
    requires TableFits(t, c + 1, |b|)
  {
    match t
    case Fat12 =>
      var k := c * 3 / 2;
      v == if c % 2 == 0 then b[k] as int + 0x100 * (b[k + 1] as int % 0x10) else b[k] / 0x10 + 0x10 * b[k + 1] as int
    case Fat16 => v == b[2 * c] as int + 0x100 * b[2 * c + 1] as int
    case Fat32 =>
      v == b[4 * c] as int + 0x100 * b[4 * c + 1] as int + 0x1_0000 * b[4 * c + 2] as int + 0x100_0000 * (b[4 * c + 3] as int % 0x10)
  }

  /** The bytes b are those of a with value v in entry c, and the bits that are not the entry's own kept. */
  ghost predicate StoredIn(t: FatType, a: seq<byte>, b: seq<byte>, c: nat, v: dword)
    requires TableFits(t, c + 1, |a|)
  {
    match t
    case Fat12 =>
      var k := c * 3 / 2;
      && Differ(a, b, k, 2)
      && (c % 2 == 0 ==> b[k] == v % 0x100 && b[k + 1] % 0x10 == v / 0x100 % 0x10 && b[k + 1] / 0x10 == a[k + 1] / 0x10)
      && (c % 2 == 1 ==> b[k] / 0x10 == v % 0x10 && b[k] % 0x10 == a[k] % 0x10 && b[k + 1] == v / 0x10 % 0x100)
    case Fat16 =>
      Differ(a, b, 2 * c, 2) && b[2 * c] == v % 0x100 && b[2 * c + 1] == v / 0x100 % 0x100
    case Fat32 =>
      var k := 4 * c;
      && Differ(a, b, k, 4)
      && b[k] == v % 0x100 && b[k + 1] == v / 0x100 % 0x100 && b[k + 2] == v / 0x1_0000 % 0x100
      && b[k + 3] % 0x10 == v / 0x100_0000 % 0x10 && (v < 0x1000_0000 ==> b[k + 3] / 0x10 == a[k + 3] / 0x10)
  }

  // The two differ at most in n bytes from k on.
  ghost predicate Differ(a: seq<byte>, b: seq<byte>, k: nat, n: nat) {
    |a| == |b| && k + n <= |a| && forall i :: 0 <= i < |a| && !(k <= i < k + n) ==> b[i] == a[i]
  }

  /** What get_fat extracts is what stands there. */
  lemma EntryStands(t: FatType, b: seq<byte>, c: nat)
    requires TableFits(t, c + 1, |b|)
    ensures Stands(t, b, c, Entry(t, b, c))
  {
    match t {
      case Fat12 =>
        At12Is(c);
        SharedByte(b[At12(c)], b[At12(c) + 1]);
      case Fat16 =>
      case Fat32 =>
        CutTop(b[4 * c], b[4 * c + 1], b[4 * c + 2], b[4 * c + 3]);
    }
  }

  lemma At12Is(c: nat)
    ensures At12(c) == c * 3 / 2
  {
  }

  lemma CutTop(p: byte, q: byte, r: byte, s: byte)
    ensures (p as int + 0x100 * q as int + 0x1_0000 * r as int + 0x100_0000 * s as int) % 0x1000_0000
         == p as int + 0x100 * q as int + 0x1_0000 * r as int + 0x100_0000 * (s % 0x10)
  {
    var low := p as int + 0x100 * q as int + 0x1_0000 * r as int + 0x100_0000 * (s % 0x10);
    assert low < 0x1000_0000;
    Mod28(s / 0x10, low);
  }

  lemma Mod28(k: nat, m: nat)
    requires m < 0x1000_0000
    ensures (0x1000_0000 * k + m) % 0x1000_0000 == m
  {
  }

  /** And what put_fat does to the table is to store it there. */
  lemma SetEntryStores(t: FatType, b: seq<byte>, c: nat, v: dword)
    requires TableFits(t, c + 1, |b|)
    ensures StoredIn(t, b, SetEntry(t, b, c, v), c, v)
  {
    match t {
      case Fat12 =>
        At12Is(c);
        SetStores12(b, c, v);
      case Fat16 =>
      case Fat32 =>
        DigitsKept(v, LdDword(b, c * 4));
        TopByte(b, 4 * c);
    }
  }

  lemma SetStores12(b: seq<byte>, c: nat, v: dword)
    requires TableFits(Fat12, c + 1, |b|)
    ensures var k, r := At12(c), Set12(b, c, v);
      && Differ(b, r, k, 2)
      && (c % 2 == 0 ==> r[k] == v % 0x100 && r[k + 1] % 0x10 == v / 0x100 % 0x10 && r[k + 1] / 0x10 == b[k + 1] / 0x10)
      && (c % 2 == 1 ==> r[k] / 0x10 == v % 0x10 && r[k] % 0x10 == b[k] % 0x10 && r[k + 1] == v / 0x10 % 0x100)
  {
    var k := At12(c);
    if c % 2 == 0 {
      PackEven(b[k + 1], v);
    } else {
      PackOdd(b[k], v);
    }
  }

  // The digits to the base 256 of the value that put_fat stores on FAT32.
  lemma DigitsKept(v: dword, was: dword)
    ensures var w := Merge32(v, was);
      && w % 0x100 == v % 0x100 && w / 0x100 % 0x100 == v / 0x100 % 0x100 && w / 0x1_0000 % 0x100 == v / 0x1_0000 % 0x100
      && w / 0x100_0000 % 0x10 == v / 0x100_0000 % 0x10
      && (v < 0x1000_0000 ==> w / 0x100_0000 / 0x10 == was / 0x1000_0000)
  {
    var w := Merge32(v, was);
    SameDigits(v / 0x1000_0000, w / 0x1000_0000, v % 0x1000_0000, v, w);
    assert w / 0x100_0000 / 0x10 == w / 0x1000_0000;
  }

  lemma SameDigits(k: nat, m: nat, low: nat, v: nat, w: nat)
    requires low < 0x1000_0000 && v == 0x1000_0000 * k + low && w == 0x1000_0000 * m + low
    ensures w % 0x100 == v % 0x100 && w / 0x100 % 0x100 == v / 0x100 % 0x100 && w / 0x1_0000 % 0x100 == v / 0x1_0000 % 0x100
    ensures w / 0x100_0000 % 0x10 == v / 0x100_0000 % 0x10
  {
    LowDigits(k, low);
    LowDigits(m, low);
  }

  lemma LowDigits(k: nat, low: nat)
    requires low < 0x1000_0000
    ensures var v := 0x1000_0000 * k + low;
      && v % 0x100 == low % 0x100 && v / 0x100 % 0x100 == low / 0x100 % 0x100
      && v / 0x1_0000 % 0x100 == low / 0x1_0000 % 0x100 && v / 0x100_0000 % 0x10 == low / 0x100_0000
  {
    var v := 0x1000_0000 * k + low;
    LastByte(0x10_0000 * k, low);
    LastByte(0x1000 * k, low / 0x100);
    LastByte(0x10 * k, low / 0x100 / 0x100);
    ByteWise(v);
    ByteWise(low);
    LastHalf(k, low / 0x100_0000);
  }

  lemma LastByte(j: nat, x: nat)
    ensures (0x100 * j + x) % 0x100 == x % 0x100 && (0x100 * j + x) / 0x100 == j + x / 0x100
  {
  }

  lemma LastHalf(j: nat, x: nat)
    requires x < 0x10
    ensures (0x10 * j + x) % 0x10 == x
  {
  }

  lemma ByteWise(x: nat)
    ensures x / 0x100 / 0x100 == x / 0x1_0000 && x / 0x100 / 0x100 / 0x100 == x / 0x100_0000
  {
  }

  lemma TopByte(b: seq<byte>, k: nat)
    requires k + 3 < |b|
    ensures LdDword(b, k) / 0x1000_0000 == b[k + 3] / 0x10
  {
  }

  /** One table of each type, as bytes: entry 2 is 3. */
  lemma SampleTables()
    ensures var b: seq<byte> := [0xF8, 0xFF, 0xFF, 0x03, 0x40, 0x00]; Entry(Fat12, b, 2) == 3 && Entry(Fat12, b, 3) == 4
    ensures var b: seq<byte> := [0xF8, 0xFF, 0xFF, 0xFF, 0x03, 0x00]; Entry(Fat16, b, 2) == 3
    ensures var b: seq<byte> := [0xF8, 0xFF, 0xFF, 0x0F, 0xFF, 0xFF, 0xFF, 0xFF, 0x03, 0x00, 0x00, 0x10]; Entry(Fat32, b, 2) == 3
  {
  }

  // The table seen as n entries.
  ghost function Entries(t: FatType, b: seq<byte>, n: nat): (f: seq<nat>)
    requires TableFits(t, n, |b|)
    ensures |f| == n
    ensures forall c :: 0 <= c < n ==> TableFits(t, c + 1, |b|) && f[c] == Entry(t, b, c)
  {
    assert forall c {:trigger TableFits(t, c + 1, |b|)} :: 0 <= c < n ==> TableFits(t, c + 1, |b|);
    seq(n, c requires 0 <= c < n => Entry(t, b, c))
  }

  lemma EntriesAfterSet(t: FatType, b: seq<byte>, n: nat, c: nat, v: dword)
    requires TableFits(t, n, |b|) && c < n
    ensures Entries(t, SetEntry(t, b, c, v), n) == Entries(t, b, n)[c := v % Span(t)]
  {
    forall d | 0 <= d < n
      ensures Entries(t, SetEntry(t, b, c, v), n)[d] == Entries(t, b, n)[c := v % Span(t)][d]
    {
      EntryAfterSet(t, b, c, v, d);
    }
  }

  lemma EntriesAfterHalf(b: seq<byte>, n: nat, c: nat, v: dword)
    requires TableFits(Fat12, n, |b|) && c < n
    ensures var f := Entries(Fat12, b, n); Entries(Fat12, SetLow12(b, c, v), n) == f[c := Half12(f[c], v, c % 2 == 1)]
  {
    var f, g := Entries(Fat12, b, n), Entries(Fat12, SetLow12(b, c, v), n);
    forall d | 0 <= d < n ensures g[d] == f[c := Half12(f[c], v, c % 2 == 1)][d] {
      EntryAfterHalf(b, c, v, d);
    }
  }
}
