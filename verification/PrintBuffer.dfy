/**
 * The print buffer of cJSON: texts are written at its offset, and it grows to a power of two
 * when there is no room.
 */
module PrintBuffer {
  import opened CString

  // Powers of two. -------------------------------------------------------------------------------

  predicate Pow2(n: nat) {
    n == 1 || (n >= 2 && n % 2 == 0 && Pow2(n / 2))
  }

  // The first of p, 2p, 4p, ... that is at least x.
  function Pow2From(p: nat, x: nat): (y: nat)
    requires 0 < p
    ensures x <= y && p <= y
    decreases x - p
  {
    if x <= p then p else Pow2From(2 * p, x)
  }

  lemma {:induction false} Pow2Step(p: nat, v: nat)
    requires Pow2(p) && Pow2(v) && p < v
    ensures 2 * p <= v && Pow2(2 * p)
    decreases p
  {
    assert 2 * p / 2 == p;
    if p >= 2 {
      Pow2Step(p / 2, v / 2);
    }
  }

  lemma {:induction false} Pow2FromIs(p: nat, x: nat, v: nat)
    requires Pow2(p) && Pow2(v) && p <= v && x <= v && v < 2 * x
    ensures Pow2From(p, x) == v
    decreases v - p
  {
    if p < v {
      Pow2Step(p, v);
      Pow2FromIs(2 * p, x, v);
    }
  }

  // a | b, bit by bit. (A shift to the right by k is a division by 2^k.)
  function Or(a: nat, b: nat): nat {
    if a == 0 && b == 0 then 0 else 2 * Or(a / 2, b / 2) + if a % 2 == 1 || b % 2 == 1 then 1 else 0
  }

  // x with every bit set that has a bit of x among so many from itself upwards; m is two to the
  // power of that number.
  function Smear(m: nat, x: nat): nat
    requires 0 < m
  {
    if x == 0 then 0 else 2 * Smear(m, x / 2) + if x % m != 0 then 1 else 0
  }

  lemma {:induction false} SmearOne(x: nat)
    ensures Smear(2, x) == x
  {
    if x > 0 {
      SmearOne(x / 2);
    }
  }

  lemma Down1(m: nat, x: nat)
    requires 0 < m
    ensures Smear(m, x) / 2 == Smear(m, x / 2)
  {
  }

  lemma By2(x: nat)
    ensures x / 4 == x / 2 / 2
  {
  }

  lemma Down2(m: nat, x: nat)
    requires 0 < m
    ensures Smear(m, x) / 4 == Smear(m, x / 4)
  {
    Down1(m, x);
    Down1(m, x / 2);
    By2(x);
    By2(Smear(m, x));
  }

  lemma By4(x: nat)
    ensures x / 16 == x / 4 / 4
  {
  }

  lemma Down4(m: nat, x: nat)
    requires 0 < m
    ensures Smear(m, x) / 16 == Smear(m, x / 16)
  {
    Down2(m, x);
    Down2(m, x / 4);
    By4(x);
    By4(Smear(m, x));
  }

  lemma By16(x: nat)
    ensures x / 256 == x / 16 / 16
  {
  }

  lemma By256(x: nat)
    ensures x / 65536 == x / 256 / 256
  {
  }

  lemma Down8(m: nat, x: nat)
    requires 0 < m
    ensures Smear(m, x) / 256 == Smear(m, x / 256)
  {
    Down4(m, x);
    Down4(m, x / 16);
    By16(x);
    By16(Smear(m, x));
  }

  lemma Down16(m: nat, x: nat)
    requires 0 < m
    ensures Smear(m, x) / 65536 == Smear(m, x / 65536)
  {
    Down8(m, x);
    Down8(m, x / 256);
    By256(x);
    By256(Smear(m, x));
  }

  // One line of pow2gt doubles the reach.
  lemma {:induction false} SmearTwice(m: nat, x: nat)
    requires m in {2, 4, 16, 256, 65536}
    ensures Or(Smear(m, x), Smear(m, x / m)) == Smear(m * m, x)
    decreases x
  {
    if x > 0 {
      Halves(m, x);
      Down1(m, x);
      Down1(m, x / m);
      SmearTwice(m, x / 2);
    }
  }

  lemma Halves(m: nat, x: nat)
    requires m in {2, 4, 16, 256, 65536}
    ensures x / m / 2 == x / 2 / m && (x % (m * m) != 0 <==> x % m != 0 || x / m % m != 0)
  {
    HalvesSwap(m, x);
    var b, r := x / m % m, x % m;
    TwoDigits(m, x, b, r);
    assert b > 0 ==> m * b >= m;
  }

  lemma HalvesSwap(m: nat, x: nat)
    requires m in {2, 4, 16, 256, 65536}
    ensures x / m / 2 == x / 2 / m
  {
    if m == 2 {
    } else if m == 4 {
    } else if m == 16 {
    } else if m == 256 {
    } else {
    }
  }

  // x has last digit r and last but one digit b to the base m.
  lemma TwoDigits(m: nat, x: nat, b: nat, r: nat)
    requires m in {2, 4, 16, 256, 65536} && b == x / m % m && r == x % m
    ensures x % (m * m) == m * b + r
  {
    if m == 65536 {
      TwoWords(x);
    } else if m == 256 {
      TwoBytes(x);
    } else if m == 16 {
      TwoNibbles(x);
    } else if m == 4 {
      TwoPairs(x);
    } else {
      assert x % 4 == 2 * (x / 2 % 2) + x % 2;
    }
  }

  lemma TwoPairs(x: nat)
    ensures x % 16 == 4 * (x / 4 % 4) + x % 4
  {
  }

  lemma TwoNibbles(x: nat)
    ensures x % 256 == 16 * (x / 16 % 16) + x % 16
  {
    By16(x);
    assert x == 256 * (x / 16 / 16) + 16 * (x / 16 % 16) + x % 16;
  }

  lemma TwoBytes(x: nat)
    ensures x % 65536 == 256 * (x / 256 % 256) + x % 256
  {
    By256(x);
    assert x == 65536 * (x / 256 / 256) + 256 * (x / 256 % 256) + x % 256;
  }

  lemma TwoWords(x: nat)
    ensures x % 0x1_0000_0000 == 65536 * (x / 65536 % 65536) + x % 65536
  {
    assert x / 0x1_0000_0000 == x / 65536 / 65536;
    assert x == 0x1_0000_0000 * (x / 65536 / 65536) + 65536 * (x / 65536 % 65536) + x % 65536;
  }

  // All bits up to the highest one of x.
  function Fill(x: nat): (y: nat)
    ensures x <= y && (x > 0 ==> y < 2 * x)
  {
    if x == 0 then 0 else 2 * Fill(x / 2) + 1
  }

  lemma {:induction false} SmearFills(x: nat)
    requires x < 0x1_0000_0000
    ensures Smear(0x1_0000_0000, x) == Fill(x)
  {
    if x > 0 {
      SmearFills(x / 2);
    }
  }

  lemma FillStep(f: nat, g: nat)
    requires Pow2(f + 1) && g == 2 * f + 1
    ensures Pow2(g + 1)
  {
    assert (g + 1) / 2 == f + 1;
  }

  lemma {:induction false} FillPow2(x: nat)
    ensures Pow2(Fill(x) + 1)
  {
    if x > 0 {
      FillPow2(x / 2);
      FillStep(Fill(x / 2), Fill(x));
    }
  }

  /** pow2gt: the smallest power of two that is at least n. */
  method Pow2gt(n: nat) returns (y: nat)
    requires 1 <= n <= 0x4000_0000
    ensures y == Pow2From(1, n) && Pow2(y) && n <= y <= 0x4000_0000
  {
    var x := n - 1;
    ghost var z := x;
    SmearOne(z);
    Down1(2, z);
    SmearTwice(2, z);
    x := Or(x, x / 2);
    Down2(4, z);
    SmearTwice(4, z);
    x := Or(x, x / 4);
    Down4(16, z);
    SmearTwice(16, z);
    x := Or(x, x / 16);
    Down8(256, z);
    SmearTwice(256, z);
    x := Or(x, x / 256);
    Down16(65536, z);
    SmearTwice(65536, z);
    x := Or(x, x / 65536);
    SmearFills(z);
    FillPow2(z);
    y := x + 1;
    Pow2FromIs(1, n, y);
    AtMostTop(y);
  }

  lemma AtMostTop(y: nat)
    requires Pow2(y) && y < 0x8000_0000
    ensures y <= 0x4000_0000
  {
    TopIsPow2();
    if 0x4000_0000 < y {
      Pow2Step(0x4000_0000, y);
    }
  }

  lemma TopIsPow2()
    ensures Pow2(0x4000_0000)
  {
    Sixteen(1);
    Sixteen(0x10);
    Sixteen(0x100);
    Sixteen(0x1000);
    Sixteen(0x1_0000);
    Sixteen(0x10_0000);
    Sixteen(0x100_0000);
    Double(0x1000_0000);
    Double(0x2000_0000);
  }

  lemma Sixteen(x: nat)
    requires Pow2(x) && 0 < x
    ensures Pow2(16 * x)
  {
    var a := 2 * x;
    Double(x);
    var b := 2 * a;
    Double(a);
    var c := 2 * b;
    Double(b);
    Double(c);
    assert 2 * c == 16 * x;
  }

  lemma Double(x: nat)
    requires Pow2(x) && 0 < x
    ensures Pow2(2 * x)
  {
    assert 2 * x / 2 == x;
  }

  // printbuffer.
  class Buffer {
    var buffer: array<char>
    var length: nat
    var offset: nat

    ghost predicate Valid()
      reads this
    {
      buffer.Length == length && offset <= length
    }

    /** The set-up in cJSON_PrintBuffered. */
    constructor (prebuffer: nat)
      requires 0 < prebuffer
      ensures Valid() && fresh(buffer) && length == prebuffer && offset == 0
    {
      buffer := new char[prebuffer];
      length, offset := prebuffer, 0;
    }

    /**
     * ensure: room for so many more bytes at the offset. If there is none, the bytes so far move
     * to a new buffer, whose size is the smallest power of two that is large enough.
     */
    method Ensure(needed: nat) returns (at: nat)
      requires Valid() && 0 < needed && offset + needed <= 0x4000_0000
      modifies `buffer, `length
      ensures Valid() && at == offset && at + needed <= buffer.Length
      ensures old(buffer[..]) <= buffer[..]
      ensures old(offset) + needed <= old(length) ==> buffer == old(buffer)
      ensures old(offset) + needed > old(length) ==> fresh(buffer) && length == Pow2From(1, offset + needed)
    {
      at := offset;
      if offset + needed > length {
        var newsize := Pow2gt(offset + needed);
        var newbuffer := new char[newsize];
        forall k | 0 <= k < length {
          newbuffer[k] := buffer[k];
        }
        length := newsize;
        buffer := newbuffer;
      }
    }

    /** update: the offset of the end of the text. */
    method Update(ghost t: string) returns (n: nat)
      requires Valid() && offset <= |t| && Ends(buffer[..], t) && NoNul(t)
      ensures n == |t|
    {
      var n0 := Strlen(buffer, offset, t);
      n := offset + n0;
    }
  }
}
