// Byte-addressed memory, and the little-endian words the kernel reads and
// writes in it.

module Memory {

  type byte = b: int | 0 <= b < 256

  const WORD: nat := 0x1_0000_0000

  // The little-endian number stored in m[lo..hi].
  function Le(m: seq<byte>, lo: nat, hi: nat): (v: nat)
    requires lo <= hi <= |m|
    decreases hi - lo
  {
    if lo == hi then 0 else m[lo] + 256 * Le(m, lo + 1, hi)
  }

  // Memory m after v has been stored, low byte first, in m[lo..hi].
  function PutLe(m: seq<byte>, lo: nat, hi: nat, v: nat): (r: seq<byte>)
    requires lo <= hi <= |m|
    ensures |r| == |m|
    ensures forall x | 0 <= x < |m| && !(lo <= x < hi) :: r[x] == m[x]
    decreases hi - lo
  {
    if lo == hi then m else PutLe(m[lo := v % 256], lo + 1, hi, v / 256)
  }

  // The two memories agree on [lo, hi).
  ghost predicate Agree(m: seq<byte>, n: seq<byte>, lo: nat, hi: nat) {
    |m| == |n| && forall x | lo <= x < hi && x < |m| :: m[x] == n[x]
  }

  lemma {:induction false} LeFrame(m: seq<byte>, n: seq<byte>, lo: nat, hi: nat)
    requires lo <= hi <= |m| && Agree(m, n, lo, hi)
    ensures Le(m, lo, hi) == Le(n, lo, hi)
    decreases hi - lo
  {
    if lo < hi {
      LeFrame(m, n, lo + 1, hi);
    }
  }

  // Number of values that k digits to the base b can hold.
  function Pow(b: nat, k: nat): nat {
    if k == 0 then 1 else b * Pow(b, k - 1)
  }

  // Reading back a stored value gives it reduced to the width of the store.
  lemma {:induction false} LePutLe(m: seq<byte>, lo: nat, hi: nat, v: nat)
    requires lo <= hi <= |m|
    requires v < Pow(256, hi - lo)
    ensures Le(PutLe(m, lo, hi, v), lo, hi) == v
    decreases hi - lo
  {
    if lo < hi {
      var m1 := m[lo := v % 256];
      LePutLe(m1, lo + 1, hi, v / 256);
      assert PutLe(m, lo, hi, v)[lo] == v % 256;
    }
  }

  lemma PutWord(m: seq<byte>, lo: nat, v: nat)
    requires lo + 4 <= |m| && v < WORD
    ensures Le(PutLe(m, lo, lo + 4, v), lo, lo + 4) == v
  {
    assert Pow(256, 4) == WORD;
    LePutLe(m, lo, lo + 4, v);
  }

  lemma {:induction false} LeBound(m: seq<byte>, lo: nat, hi: nat)
    requires lo <= hi <= |m|
    ensures Le(m, lo, hi) < Pow(256, hi - lo)
    decreases hi - lo
  {
    if lo < hi {
      LeBound(m, lo + 1, hi);
    }
  }

  // A 32-bit store at address lo.
  method PokeWord(a: array<byte>, lo: nat, v: nat)
    requires lo + 4 <= a.Length && v < WORD
    modifies a
    ensures a[..] == PutLe(old(a[..]), lo, lo + 4, v)
  {
    var k, w := lo, v;
    while k < lo + 4
      invariant lo <= k <= lo + 4
      invariant PutLe(a[..], k, lo + 4, w) == PutLe(old(a[..]), lo, lo + 4, v)
    {
      ghost var m := a[..];
      a[k] := w % 256;
      assert a[..] == m[k := w % 256];
      k, w := k + 1, w / 256;
    }
  }

  // A 32-bit load from address lo.
  method PeekWord(a: array<byte>, lo: nat) returns (v: nat)
    requires lo + 4 <= a.Length
    ensures v == Le(a[..], lo, lo + 4) && v < WORD
  {
    var b0: nat, b1: nat, b2: nat, b3: nat := a[lo], a[lo + 1], a[lo + 2], a[lo + 3];
    v := b0 + 256 * b1 + 0x10000 * b2 + 0x100_0000 * b3;
    assert Le(a[..], lo + 3, lo + 4) == b3;
    assert Le(a[..], lo + 2, lo + 4) == b2 + 256 * b3;
    assert Le(a[..], lo + 1, lo + 4) == b1 + 256 * b2 + 0x10000 * b3;
  }

  // memcpy (include/system.h:43-47) between two disjoint stretches of a.
  method CopyWithin(a: array<byte>, d: nat, s: nat, len: nat)
    requires d + len <= a.Length && s + len <= a.Length
    requires s + len <= d || d + len <= s
    modifies a
    ensures a[d..d + len] == old(a[s..s + len])
    ensures forall x | 0 <= x < a.Length && !(d <= x < d + len) :: a[x] == old(a[x])
  {
    for k := 0 to len
      invariant forall x | 0 <= x < a.Length && !(d <= x < d + k) :: a[x] == old(a[x])
      invariant forall x | d <= x < d + k :: a[x] == old(a[x - d + s])
    {
      a[d + k] := a[s + k];
    }
  }

  // memset (include/system.h:37-41) of a stretch of a to zero.
  method ZeroBytes(a: array<byte>, d: nat, len: nat)
    requires d + len <= a.Length
    modifies a
    ensures forall x | d <= x < d + len :: a[x] == 0
    ensures forall x | 0 <= x < a.Length && !(d <= x < d + len) :: a[x] == old(a[x])
  {
    for k := 0 to len
      invariant forall x | 0 <= x < a.Length && !(d <= x < d + k) :: a[x] == old(a[x])
      invariant forall x | d <= x < d + k :: a[x] == 0
    {
      a[d + k] := 0;
    }
  }
}
