/**
 * C strings in memory, written through moving pointers.
 */
module CString {
  const NUL: char := 0 as char

  ghost predicate NoNul(t: string) {
    forall i :: 0 <= i < |t| ==> t[i] != NUL
  }

  // A C string t stands at the front of a.
  ghost predicate Ends(a: seq<char>, t: string) {
    |t| < |a| && t <= a && a[|t|] == NUL
  }

  // Characters s behind the text t: a row of *ptr++ = c, or a memcpy.
  method Put(a: array<char>, at: nat, s: string, ghost t: string) returns (e: nat)
    requires at == |t| && t <= a[..] && at + |s| <= a.Length
    modifies a
    ensures e == at + |s| == |t + s| && t + s <= a[..]
  {
    ghost var was := a[..];
    forall k | 0 <= k < |s| {
      a[at + k] := s[k];
    }
    e := at + |s|;
    ghost var now := a[..];
    forall k | 0 <= k < |t + s| ensures now[k] == (t + s)[k] {
      assert k < |t| ==> now[k] == was[k];
    }
  }

  // The same with a NUL behind: strcpy, or *ptr = 0.
  method PutEnd(a: array<char>, at: nat, s: string, ghost t: string) returns (e: nat)
    requires at == |t| && t <= a[..] && at + |s| < a.Length
    modifies a
    ensures e == at + |s| == |t + s| && Ends(a[..], t + s)
  {
    e := Put(a, at, s, t);
    ghost var was := a[..];
    a[e] := NUL;
    ghost var now := a[..];
    forall k | 0 <= k < |t + s| ensures now[k] == (t + s)[k] {
      assert now[k] == was[k];
    }
  }

  // strlen from position at on.
  method Strlen(a: array<char>, at: nat, ghost t: string) returns (n: nat)
    requires at <= |t| && Ends(a[..], t) && NoNul(t)
    ensures at + n == |t|
  {
    n := 0;
    forall k | 0 <= k < |t| ensures a[k] != NUL {
      assert a[..][k] == t[k];
    }
    while a[at + n] != NUL
      invariant at + n <= |t|
      decreases |t| - n
    {
      n := n + 1;
    }
  }
}
