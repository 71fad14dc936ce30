/**
 * A file's bytes, laid out in the clusters of its chain: the file is the concatenation of
 * its clusters' sectors. Everything here is about sequences only.
 */
module FileData {
  import opened Basics
  import opened Types

  // The elements of x, row after row.
  ghost function Flat<T>(x: seq<seq<T>>): seq<T> {
    if x == [] then [] else Flat(x[..|x| - 1]) + x[|x| - 1]
  }

  // Every row has n elements.
  ghost predicate Uniform<T>(x: seq<seq<T>>, n: nat) {
    forall i :: 0 <= i < |x| ==> |x[i]| == n
  }

  // Position of row i when rows have n elements: i * n, as PosFormula shows.
  function Pos(n: nat, i: nat): nat {
    if i == 0 then 0 else Pos(n, i - 1) + n
  }

  lemma {:induction false} PosFormula(n: nat, i: nat)
    ensures Pos(n, i) == i * n
  {
    if i > 0 {
      PosFormula(n, i - 1);
    }
  }

  lemma PosStep(n: nat, i: nat)
    ensures Pos(n, i + 1) == Pos(n, i) + n
  {
  }

  lemma {:induction false} PosMono(n: nat, i: nat, j: nat)
    requires i < j
    ensures Pos(n, i) + n <= Pos(n, j)
  {
    if i < j - 1 {
      PosMono(n, i, j - 1);
    }
  }

  // Where position p lies, given the row it is in.
  lemma PosDiv(n: nat, i: nat, p: nat)
    requires Pos(n, i) <= p < Pos(n, i) + n
    ensures p / n == i && p % n == p - Pos(n, i)
  {
    var q, r := p / n, p % n;
    PosFormula(n, q);
    assert p == Pos(n, q) + r;
    if q < i {
      PosMono(n, q, i);
    } else if i < q {
      PosMono(n, i, q);
    }
  }

  lemma {:induction false} FlatSize<T>(x: seq<seq<T>>, n: nat)
    requires Uniform(x, n)
    ensures |Flat(x)| == Pos(n, |x|)
  {
    if x != [] {
      FlatSize(x[..|x| - 1], n);
      PosStep(n, |x| - 1);
    }
  }

  lemma {:induction false} FlatConcat<T>(x: seq<seq<T>>, y: seq<seq<T>>)
    ensures Flat(x + y) == Flat(x) + Flat(y)
  {
    var z := x + y;
    if y == [] {
      assert z == x;
    } else {
      var n := |y| - 1;
      FlatConcat(x, y[..n]);
      assert z[..|z| - 1] == x + y[..n] && z[|z| - 1] == y[n];
      Assoc(Flat(x), Flat(y[..n]), y[n]);
    }
  }

  lemma FlatOne<T>(r: seq<T>)
    ensures Flat([r]) == r
  {
    assert [r][..0] == [];
  }

  // b with the elements from p on overwritten by w; what goes past the end is appended.
  function Splice<T>(b: seq<T>, p: nat, w: seq<T>): (r: seq<T>)
    requires p <= |b|
    ensures |r| == if p + |w| < |b| then |b| else p + |w|
  {
    b[..p] + w + if p + |w| < |b| then b[p + |w|..] else []
  }

  /** Overwriting whole rows overwrites their elements. */
  lemma SpliceRows<T>(x: seq<seq<T>>, n: nat, i: nat, y: seq<seq<T>>)
    requires Uniform(x, n) && Uniform(y, n) && i + |y| <= |x|
    ensures Pos(n, i) + Pos(n, |y|) <= |Flat(x)|
    ensures Uniform(Splice(x, i, y), n) && Flat(Splice(x, i, y)) == Splice(Flat(x), Pos(n, i), Flat(y))
  {
    var a, m, c := x[..i], x[i..i + |y|], x[i + |y|..];
    ThreeRuns(a, m, c);
    assert x == a + m + c;
    ThreeRuns(a, y, c);
    assert Splice(x, i, y) == a + y + c;
    FlatSize(a, n);
    FlatSize(m, n);
    FlatSize(y, n);
    SpliceMiddle(Flat(a), Flat(m), Flat(y), Flat(c));
  }

  lemma ThreeRuns<T>(a: seq<seq<T>>, m: seq<seq<T>>, c: seq<seq<T>>)
    ensures Flat(a + m + c) == Flat(a) + Flat(m) + Flat(c)
  {
    FlatConcat(a + m, c);
    FlatConcat(a, m);
  }

  lemma SpliceMiddle<T>(a: seq<T>, m: seq<T>, w: seq<T>, c: seq<T>)
    requires |m| == |w|
    ensures Splice(a + m + c, |a|, w) == a + w + c
  {
  }

  lemma SpliceRow<T>(x: seq<seq<T>>, n: nat, i: nat, r: seq<T>)
    requires Uniform(x, n) && i < |x| && |r| == n
    ensures Pos(n, i) + n <= |Flat(x)| && Flat(x[i := r]) == Splice(Flat(x), Pos(n, i), r)
  {
    var y := [r];
    SpliceOne(x, i, r);
    FlatOne(r);
    PosStep(n, 0);
    SpliceRows(x, n, i, y);
  }

  lemma SpliceOne<T>(x: seq<T>, i: nat, r: T)
    requires i < |x|
    ensures Splice(x, i, [r]) == x[i := r]
  {
  }

  /** Row i is found at its position. */
  lemma RowAt<T>(x: seq<seq<T>>, n: nat, i: nat)
    requires Uniform(x, n) && i < |x|
    ensures Pos(n, i) + n <= |Flat(x)| && Flat(x)[Pos(n, i)..Pos(n, i) + n] == x[i]
  {
    var r := x[i];
    SpliceRow(x, n, i, r);
    assert x[i := r] == x;
    SpliceParts(Flat(x), Pos(n, i), r);
  }

  /** Overwriting part of row i overwrites the same elements of the whole. */
  lemma SpliceInRow<T>(x: seq<seq<T>>, n: nat, i: nat, j: nat, y: seq<T>)
    requires Uniform(x, n) && i < |x| && j + |y| <= n
    ensures Pos(n, i) + n <= |Flat(x)|
    ensures Flat(x[i := Splice(x[i], j, y)]) == Splice(Flat(x), Pos(n, i) + j, y)
  {
    SplicedRow(x, n, i, j, y);
    SpliceRow(x, n, i, Splice(x[i], j, y));
  }

  lemma SplicedRow<T>(x: seq<seq<T>>, n: nat, i: nat, j: nat, y: seq<T>)
    requires Uniform(x, n) && i < |x| && j + |y| <= n
    ensures Pos(n, i) + n <= |Flat(x)|
    ensures Splice(Flat(x), Pos(n, i), Splice(x[i], j, y)) == Splice(Flat(x), Pos(n, i) + j, y)
  {
    RowAt(x, n, i);
    SpliceInside(Flat(x), Pos(n, i), n, j, y, x[i]);
  }

  lemma SpliceInside<T>(b: seq<T>, p: nat, n: nat, j: nat, y: seq<T>, r: seq<T>)
    requires p + n <= |b| && j + |y| <= n && r == b[p..p + n]
    ensures Splice(b, p, Splice(r, j, y)) == Splice(b, p + j, y)
  {
    SpliceNested(b, p, n, j, y);
  }

  lemma SpliceNested<T>(b: seq<T>, p: nat, n: nat, j: nat, y: seq<T>)
    requires p + n <= |b| && j + |y| <= n
    ensures Splice(b, p, Splice(b[p..p + n], j, y)) == Splice(b, p + j, y)
  {
    var r := Splice(b[p..p + n], j, y);
    assert r == b[p..p + j] + y + b[p + j + |y|..p + n];
    assert b[..p + j] == b[..p] + b[p..p + j];
    assert b[p + j + |y|..] == b[p + j + |y|..p + n] + b[p + n..];
  }

  // What is known of a splice, piece by piece.
  lemma SpliceParts<T>(b: seq<T>, p: nat, w: seq<T>)
    requires p + |w| <= |b|
    ensures var r := Splice(b, p, w);
            |r| == |b| && r[..p] == b[..p] && r[p..p + |w|] == w && r[p + |w|..] == b[p + |w|..]
  {
  }

  // b cut into rows of n elements.
  ghost function Rows<T>(b: seq<T>, n: nat): (x: seq<seq<T>>)
    requires 0 < n
    ensures Uniform(x, n)
    decreases |b|
  {
    if |b| < n then [] else Rows(b[..|b| - n], n) + [b[|b| - n..]]
  }

  lemma {:induction false} FlatRows<T>(b: seq<T>, n: nat, m: nat)
    requires 0 < n && |b| == Pos(n, m)
    ensures |Rows(b, n)| == m && Flat(Rows(b, n)) == b
    decreases |b|
  {
    if m == 0 {
    } else {
      PosStep(n, m - 1);
      var a, r, x := b[..|b| - n], b[|b| - n..], Rows(b, n);
      assert 0 <= Pos(n, m - 1);
      FlatRows(a, n, m - 1);
      assert x[..|x| - 1] == Rows(a, n) && x[|x| - 1] == r;
      assert b == a + r;
    }
  }

  // Element (k, q) after overwriting part of row i.
  lemma SplicedElement<T>(x: seq<seq<T>>, n: nat, i: nat, j: nat, y: seq<T>, k: nat, q: nat)
    requires Uniform(x, n) && i < |x| && j + |y| <= n && k < |x| && q < n
    ensures var d := x[i := Splice(x[i], j, y)];
            |d[k]| == n && d[k][q] == if k == i && j <= q < j + |y| then y[q - j] else x[k][q]
  {
  }

  // From b0 to b: w was stored at p, everything before p and from there up to lim is kept.
  // (Behind a quantifier, like Volume.Checked.)
  ghost predicate Wrote<T>(b0: seq<T>, b: seq<T>, p: nat, w: seq<T>, lim: nat) {
    && p <= |b0| && lim <= |b0| <= |b| && p + |w| <= |b|
    && Overwrote(b0, b, p, w, lim) == true
  }

  ghost predicate Overwrote<T>(b0: seq<T>, b: seq<T>, p: nat, w: seq<T>, lim: nat)
    requires p <= |b0| && lim <= |b0| <= |b| && p + |w| <= |b|
  {
    forall k :: LookBytes(k) ==> WroteNow(b0, b, p, w, lim)
  }

  ghost predicate WroteNow<T>(b0: seq<T>, b: seq<T>, p: nat, w: seq<T>, lim: nat)
    requires p <= |b0| && lim <= |b0| <= |b| && p + |w| <= |b|
  {
    && b[..p] == b0[..p] && b[p..p + |w|] == w
    && (p + |w| < lim ==> b[p + |w|..lim] == b0[p + |w|..lim])
  }

  lemma WroteNothing<T>(b0: seq<T>, b: seq<T>, p: nat, lim: nat)
    requires b0 <= b && p <= |b0| && lim <= |b0|
    ensures Wrote(b0, b, p, [], lim)
  {
  }

  lemma WroteMore<T>(b0: seq<T>, b1: seq<T>, b2: seq<T>, p: nat, u: seq<T>, x: seq<T>, lim: nat)
    requires Wrote(b0, b1, p, u, lim) && Wrote(b1, b2, p + |u|, x, lim)
    ensures Wrote(b0, b2, p, u + x, lim)
  {
    assert LookBytes(0);
    var q, r := p + |u|, p + |u| + |x|;
    assert b2[..p] == b2[..q][..p] && b1[..p] == b1[..q][..p];
    assert b2[p..r] == b2[..q][p..] + b2[q..r] && b1[..q][p..] == b1[p..q];
    if r < lim {
      assert b1[r..lim] == b1[q..lim][r - q..] && b0[r..lim] == b0[q..lim][r - q..];
    }
  }

  lemma WroteSplice<T>(b: seq<T>, p: nat, w: seq<T>, lim: nat)
    requires p + |w| <= |b| && lim <= |b|
    ensures Wrote(b, Splice(b, p, w), p, w, lim)
  {
    SpliceParts(b, p, w);
    var r := Splice(b, p, w);
    if p + |w| < lim {
      assert r[p + |w|..lim] == r[p + |w|..][..lim - p - |w|];
      assert b[p + |w|..lim] == b[p + |w|..][..lim - p - |w|];
    }
  }

  /** What was written, cut at the new end, is the old contents with w spliced in. */
  lemma WroteIsSplice<T>(b0: seq<T>, b: seq<T>, p: nat, w: seq<T>, lim: nat)
    requires Wrote(b0, b, p, w, lim) && p <= lim <= |b0|
    ensures |b0| <= |b| && p + |w| <= |b|
    ensures b[..if p + |w| < lim then lim else p + |w|] == Splice(b0[..lim], p, w)
  {
    assert LookBytes(0);
    var q := p + |w|;
    assert b[..q] == b[..p] + b[p..q];
    if q < lim {
      assert b[..lim] == b[..q] + b[q..lim];
      assert b0[..lim][q..] == b0[q..lim];
    }
    assert b0[..lim][..p] == b0[..p];
  }

  // Bytes w were put at offset o of row q, over the row x that was there or, when nothing
  // from there on matters, over anything.
  lemma WrotePart<T>(b: seq<T>, q: nat, n: nat, o: nat, w: seq<T>, x: seq<T>, lim: nat)
    requires q + n <= |b| && |x| == n && o + |w| <= n && lim <= |b|
    requires x == b[q..q + n] || (o == 0 && lim <= q)
    ensures Wrote(b, Splice(b, q, Splice(x, o, w)), q + o, w, lim)
  {
    if x == b[q..q + n] {
      SpliceInside(b, q, n, o, w, x);
      WroteSplice(b, q + o, w, lim);
    } else {
      WroteOver(b, q, n, w, x, lim);
    }
  }

  lemma WroteOver<T>(b: seq<T>, q: nat, n: nat, w: seq<T>, x: seq<T>, lim: nat)
    requires q + n <= |b| && |x| == n && |w| <= n && lim <= q
    ensures Wrote(b, Splice(b, q, Splice(x, 0, w)), q, w, lim)
  {
    var y := Splice(x, 0, w);
    var r := Splice(b, q, y);
    SpliceParts(x, 0, w);
    SpliceParts(b, q, y);
    assert r[q..q + |w|] == r[q..q + n][..|w|];
  }

  // The disk with sectors y at s.
  ghost predicate Stored<S>(l: seq<S>, s: int, y: seq<S>, m: seq<S>) {
    |m| == |l| && forall t :: 0 <= t < |l| ==> m[t] == if s <= t < s + |y| then y[t - s] else l[t]
  }

  lemma StoredRows<T>(l: seq<seq<T>>, s: nat, bytes: seq<T>, n: nat, cc: nat, m: seq<seq<T>>)
    requires 0 < n && |bytes| == Pos(n, cc) && |m| == |l|
    requires forall t :: 0 <= t < |l| && !(s <= t < s + cc) ==> m[t] == l[t]
    requires forall k {:trigger Pos(n, k)} :: 0 <= k < cc && s + k < |l| ==>
      Pos(n, k) + n <= |bytes| && m[s + k] == bytes[Pos(n, k)..Pos(n, k) + n]
    ensures Stored(l, s, Rows(bytes, n), m) && |Rows(bytes, n)| == cc
  {
    var y := Rows(bytes, n);
    FlatRows(bytes, n, cc);
    forall t | 0 <= t < |l| && s <= t < s + cc ensures m[t] == y[t - s] {
      RowAt(y, n, t - s);
    }
  }
}
