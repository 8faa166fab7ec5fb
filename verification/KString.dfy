// kernel/string.c: memory moves, string comparison and substring search. A
// string is the memory from a pointer on, as far as its first 0.

module KString {
  import opened Memory
  import opened Options

  ghost predicate Terminated(m: seq<byte>) {
    0 in m
  }

  // The string m points to, cut off after n bytes.
  function Prefix(m: seq<byte>, n: nat): (r: seq<byte>)
    ensures |r| <= n && r <= m && 0 !in r
  {
    if n == 0 || m == [] || m[0] == 0 then [] else [m[0]] + Prefix(m[1..], n - 1)
  }

  function Str(m: seq<byte>): seq<byte> {
    Prefix(m, |m|)
  }

  // What is before the first 0 is the string, or as much of it as counts.
  lemma {:induction false} PrefixIs(m: seq<byte>, n: nat, k: nat)
    requires k <= n && k <= |m| && 0 !in m[..k] && (k == n || (k < |m| && m[k] == 0))
    ensures Prefix(m, n) == m[..k]
  {
    if k > 0 {
      assert m[0] == m[..k][0];
      assert m[1..][..k - 1] == m[..k][1..];
      PrefixIs(m[1..], n - 1, k - 1);
    }
  }

  // ---------------------------------------------------------------- order

  // Lexicographic order of unsigned bytes.
  predicate Less(s: seq<byte>, t: seq<byte>) {
    t != [] && (s == [] || s[0] < t[0] || (s[0] == t[0] && Less(s[1..], t[1..])))
  }

  lemma {:induction false} LessTotal(s: seq<byte>, t: seq<byte>)
    ensures Less(s, t) || Less(t, s) || s == t
    ensures !(Less(s, t) && Less(t, s)) && !Less(s, s)
  {
    if s != [] && t != [] {
      LessTotal(s[1..], t[1..]);
      assert s == [s[0]] + s[1..] && t == [t[0]] + t[1..];
    }
    if s != [] {
      LessTotal(s[1..], s[1..]);
    }
  }

  lemma {:induction false} LessTransitive(s: seq<byte>, t: seq<byte>, u: seq<byte>)
    requires Less(s, t) && Less(t, u)
    ensures Less(s, u)
  {
    if s != [] {
      if s[0] == t[0] == u[0] {
        LessTransitive(s[1..], t[1..], u[1..]);
      }
    }
  }

  // A difference at the end of a common beginning decides.
  lemma {:induction false} FirstDifference(s: seq<byte>, t: seq<byte>, k: nat)
    requires k <= |s| && k <= |t| && s[..k] == t[..k]
    requires k < |s| && k < |t| ==> s[k] != t[k]
    ensures s == t <==> k == |s| == |t|
    ensures Less(s, t) <==> k < |t| && (k == |s| || s[k] < t[k])
    decreases k
  {
    if k > 0 {
      assert s[0] == s[..k][0] && t[0] == t[..k][0];
      assert s[1..][..k - 1] == s[..k][1..] && t[1..][..k - 1] == t[..k][1..];
      FirstDifference(s[1..], t[1..], k - 1);
      assert s == [s[0]] + s[1..] && t == [t[0]] + t[1..];
    }
  }

  ghost predicate Compares(r: int, s: seq<byte>, t: seq<byte>) {
    && (r < 0 <==> Less(s, t))
    && (r > 0 <==> Less(t, s))
    && (r == 0 <==> s == t)
  }

  method StrLen(m: seq<byte>) returns (len: nat)
    requires Terminated(m)
    ensures len == |Str(m)|
  {
    len := 0;
    while m[len] != 0
      invariant len < |m| && 0 !in m[..len] && 0 in m[len..]
      decreases |m| - len
    {
      assert m[len..] == [m[len]] + m[len + 1..];
      assert m[..len + 1] == m[..len] + [m[len]];
      len := len + 1;
    }
    PrefixIs(m, |m|, len);
  }

  lemma {:induction false} PrefixAtLeast(m: seq<byte>, n: nat, k: nat)
    requires k <= n && k <= |m| && 0 !in m[..k]
    ensures |Prefix(m, n)| >= k
  {
    if k > 0 {
      assert m[0] == m[..k][0];
      assert m[1..][..k - 1] == m[..k][1..];
      PrefixAtLeast(m[1..], n - 1, k - 1);
    }
  }

  // The string goes on behind its first i bytes unless it is cut off or ends.
  lemma PrefixGoesOn(m: seq<byte>, n: nat, i: nat)
    requires i <= n && i <= |m| && 0 !in m[..i] && (i == n || i < |m|)
    ensures |Prefix(m, n)| >= i && Prefix(m, n)[..i] == m[..i]
    ensures |Prefix(m, n)| == i <==> i == n || m[i] == 0
    ensures |Prefix(m, n)| > i ==> Prefix(m, n)[i] == m[i]
  {
    PrefixAtLeast(m, n, i);
    if i == n || m[i] == 0 {
      PrefixIs(m, n, i);
    } else {
      assert m[..i + 1] == m[..i] + [m[i]];
      PrefixAtLeast(m, n, i + 1);
    }
  }

  function Minus(x: byte, y: byte): int {
    (x as int) - (y as int)
  }

  // Equal up to i, where both are cut off or the bytes differ or end both
  // strings: the difference of these bytes tells the order.
  lemma ComparesAt(m: seq<byte>, a: nat, n: seq<byte>, b: nat, i: nat)
    requires i <= a && i <= b && i <= |m| && i <= |n| && m[..i] == n[..i] && 0 !in m[..i]
    requires i == a == b || (i < a && i < b && i < |m| && i < |n| && (m[i] != n[i] || m[i] == 0))
    ensures Compares(if i == a == b then 0 else Minus(m[i], n[i]), Prefix(m, a), Prefix(n, b))
  {
    var p, q := Prefix(m, a), Prefix(n, b);
    PrefixGoesOn(m, a, i);
    PrefixGoesOn(n, b, i);
    FirstDifference(p, q, i);
    FirstDifference(q, p, i);
  }

  method StrCmp(s1: seq<byte>, s2: seq<byte>) returns (r: int)
    requires Terminated(s1) && Terminated(s2)
    ensures Compares(r, Str(s1), Str(s2))
  {
    var i := 0;
    while s1[i] != 0 && s1[i] == s2[i]
      invariant i < |s1| && i < |s2| && s1[..i] == s2[..i] && 0 !in s1[..i] && 0 in s1[i..] && 0 in s2[i..]
      decreases |s1| - i
    {
      assert s1[i..] == [s1[i]] + s1[i + 1..] && s2[i..] == [s2[i]] + s2[i + 1..];
      assert s1[..i + 1] == s1[..i] + [s1[i]] && s2[..i + 1] == s2[..i] + [s2[i]];
      i := i + 1;
    }
    r := Minus(s1[i], s2[i]);
    ComparesAt(s1, |s1|, s2, |s2|, i);
  }

  method StrNCmp(s1: seq<byte>, s2: seq<byte>, n: nat) returns (r: int)
    requires Terminated(s1) || n <= |s1|
    requires Terminated(s2) || n <= |s2|
    ensures Compares(r, Prefix(s1, n), Prefix(s2, n))
  {
    var i := 0;
    while i < n
      invariant i <= n && i <= |s1| && i <= |s2| && s1[..i] == s2[..i] && 0 !in s1[..i]
      invariant (0 in s1[i..] || n <= |s1|) && (0 in s2[i..] || n <= |s2|)
    {
      if s1[i] != s2[i] {
        ComparesAt(s1, n, s2, n, i);
        return Minus(s1[i], s2[i]);
      }
      if s1[i] == 0 {
        ComparesAt(s1, n, s2, n, i);
        return 0;
      }
      assert s1[i..] == [s1[i]] + s1[i + 1..] && s2[i..] == [s2[i]] + s2[i + 1..];
      assert s1[..i + 1] == s1[..i] + [s1[i]] && s2[..i + 1] == s2[..i] + [s2[i]];
      i := i + 1;
    }
    ComparesAt(s1, n, s2, n, n);
    return 0;
  }

  // ---------------------------------------------------------------- search

  ghost predicate OccursAt(h: seq<byte>, n: seq<byte>, i: nat) {
    i + |n| <= |h| && h[i..i + |n|] == n
  }

  lemma {:induction false} StringEnds(m: seq<byte>, n: nat)
    requires 0 in m || n <= |m|
    ensures |Prefix(m, n)| == n || (|Prefix(m, n)| < |m| && m[|Prefix(m, n)|] == 0)
  {
    if n > 0 && m[0] != 0 {
      var t := m[1..];
      assert 0 in m ==> 0 in t;
      StringEnds(t, n - 1);
    }
  }

  // The byte at place j of the memory m, before and at the end of its string.
  lemma InString(m: seq<byte>, j: nat)
    requires Terminated(m) && j <= |Str(m)|
    ensures j < |m| && if j < |Str(m)| then m[j] == Str(m)[j] && m[j] != 0 else m[j] == 0
  {
    StringEnds(m, |m|);
    assert |Str(m)| == |m| ==> Str(m) == m;
    assert j < |Str(m)| ==> Str(m)[j] in Str(m);
  }

  // A mismatch, or the end of the text, rules out an occurrence.
  lemma NoMatch(h: seq<byte>, n: seq<byte>, i: nat, j: nat)
    requires j < |n| ==> i + j >= |h| || h[i + j] != n[j]
    ensures j < |n| ==> !OccursAt(h, n, i)
  {
    if j < |n| && i + |n| <= |h| {
      assert h[i..i + |n|][j] == h[i + j];
    }
  }

  // The first j bytes of n stand at i in h.
  ghost predicate Matches(h: seq<byte>, n: seq<byte>, i: nat, j: nat) {
    i + j <= |h| && j <= |n| && forall k | 0 <= k < j :: n[k] == h[i + k]
  }

  lemma MatchesAll(h: seq<byte>, n: seq<byte>, i: nat)
    ensures OccursAt(h, n, i) <==> Matches(h, n, i, |n|)
  {
    if OccursAt(h, n, i) {
      forall k | 0 <= k < |n|
        ensures n[k] == h[i + k]
      {
        assert h[i..i + |n|][k] == h[i + k];
      }
    }
  }

  // The memory m holds the bytes of s and then a 0.
  ghost predicate Spells(m: seq<byte>, s: seq<byte>) {
    |s| < |m| && m[|s|] == 0 && forall k | 0 <= k < |s| :: m[k] == s[k] && s[k] != 0
  }

  lemma StrSpelt(m: seq<byte>)
    requires Terminated(m)
    ensures Spells(m, Str(m))
  {
    InString(m, |Str(m)|);
    forall k | 0 <= k < |Str(m)|
      ensures m[k] == Str(m)[k] && Str(m)[k] != 0
    {
      InString(m, k);
    }
  }

  // How far n matches at i in h; neither memory is read behind its 0.
  method MatchWhile(haystack: seq<byte>, needle: seq<byte>, i: nat, ghost h: seq<byte>, ghost n: seq<byte>)
    returns (j: nat)
    requires Spells(haystack, h) && Spells(needle, n) && i <= |h|
    ensures Matches(h, n, i, j) && (j < |n| ==> i + j >= |h| || h[i + j] != n[j])
  {
    j := 0;
    while needle[j] != 0 && haystack[i + j] == needle[j]
      invariant Matches(h, n, i, j)
      decreases |n| - j
    {
      j := j + 1;
    }
  }

  method MatchFrom(haystack: seq<byte>, needle: seq<byte>, i: nat) returns (j: nat)
    requires Terminated(haystack) && Terminated(needle) && i <= |Str(haystack)|
    ensures j <= |Str(needle)| && i + j <= |Str(haystack)|
    ensures j == |Str(needle)| <==> OccursAt(Str(haystack), Str(needle), i)
  {
    StrSpelt(haystack);
    StrSpelt(needle);
    j := MatchWhile(haystack, needle, i, Str(haystack), Str(needle));
    NoMatch(Str(haystack), Str(needle), i, j);
    MatchesAll(Str(haystack), Str(needle), i);
  }

  // The earliest place where the needle occurs, if there is one.
  method StrStr(haystack: seq<byte>, needle: seq<byte>) returns (r: Option<nat>)
    requires Terminated(haystack) && Terminated(needle)
    ensures r == None <==> forall i: nat :: !OccursAt(Str(haystack), Str(needle), i)
    ensures r.Some? ==> OccursAt(Str(haystack), Str(needle), r.value)
                        && forall i | 0 <= i < r.value :: !OccursAt(Str(haystack), Str(needle), i)
  {
    ghost var h, n := Str(haystack), Str(needle);
    InString(needle, 0);
    if needle[0] == 0 {
      assert OccursAt(h, n, 0);
      return Some(0);
    }
    var i := 0;
    InString(haystack, 0);
    while haystack[i] != 0
      invariant i <= |h| && i < |haystack| && (haystack[i] == 0 <==> i == |h|)
      invariant forall k | 0 <= k < i :: !OccursAt(h, n, k)
      decreases |h| - i
    {
      var j := MatchFrom(haystack, needle, i);
      InString(needle, j);
      if needle[j] == 0 {
        return Some(i);
      }
      i := i + 1;
      InString(haystack, i);
    }
    return None;
  }

  // ---------------------------------------------------------------- copies

  // n bytes: the string, cut off there, and zeros behind it.
  function Padded(m: seq<byte>, n: nat): (r: seq<byte>)
    ensures |r| == n
  {
    Prefix(m, n) + seq(n - |Prefix(m, n)|, _ => 0)
  }

  // Byte by byte: what the source holds as long as no 0 has come, and then 0.
  lemma PaddedBytes(m: seq<byte>, n: nat, i: nat)
    requires Terminated(m) && i < n
    ensures i < |m| && 0 !in m[..i + 1] ==> Padded(m, n)[i] == m[i]
    ensures i >= |m| || 0 in m[..i + 1] ==> Padded(m, n)[i] == 0
  {
    InString(m, |Str(m)|);
    var k := |Str(m)|;
    if k < n {
      PrefixIs(m, n, k);
      assert i >= k ==> m[..|m|][k] == 0 && (i < |m| ==> m[..i + 1][k] == 0);
    } else {
      assert m[..n] == Str(m)[..n];
      PrefixIs(m, n, n);
    }
    assert i < k ==> m[..i + 1] == Str(m)[..i + 1];
  }

  // The copy is a string equal to its source exactly if there is room for the
  // terminator.
  lemma PaddedEnds(m: seq<byte>, n: nat)
    requires Terminated(m)
    ensures Terminated(Padded(m, n)) <==> |Str(m)| < n
    ensures |Str(m)| < n ==> Str(Padded(m, n)) == Str(m)
  {
    InString(m, |Str(m)|);
    var k := |Str(m)|;
    if k < n {
      PrefixIs(m, n, k);
      PrefixIs(m, |m|, k);
      assert Padded(m, n)[k] == 0;
      PrefixIs(Padded(m, n), n, k);
      assert Padded(m, n)[..k] == m[..k];
    } else {
      assert m[..n] == Str(m)[..n];
      assert 0 !in m[..n];
      PrefixIs(m, n, n);
    }
  }

  // How many bytes of the source strncpy reads.
  function ReadLength(m: seq<byte>, n: nat): nat {
    if |Prefix(m, n)| < n then |Prefix(m, n)| + 1 else n
  }

  // The byte at place i of the source: one of p, or the 0 behind it.
  predicate SourceByte(m: seq<byte>, src: nat, n: nat, p: seq<byte>, i: nat)
    requires i <= |p| <= n
  {
    && (i < n ==> src + i < |m|)
    && (i < |p| ==> m[src + i] == p[i] && p[i] != 0)
    && (i == |p| < n ==> m[src + i] == 0)
  }

  // The bytes that strncpy reads are those of p and the 0 behind it, and writing
  // the destination does not run ahead of them.
  ghost predicate Copyable(m: seq<byte>, dest: nat, src: nat, n: nat, p: seq<byte>) {
    && |p| <= n && dest + n <= |m| && (dest <= src || src + |p| < dest || (|p| == n && src + n <= dest))
    && forall i: nat | i <= |p| :: SourceByte(m, src, n, p, i)
  }

  lemma StringCopyable(m: seq<byte>, dest: nat, src: nat, n: nat)
    requires dest + n <= |m| && src <= |m| && (Terminated(m[src..]) || src + n <= |m|)
    requires dest <= src || src + ReadLength(m[src..], n) <= dest
    ensures Copyable(m, dest, src, n, Prefix(m[src..], n))
  {
    var s, p := m[src..], Prefix(m[src..], n);
    StringEnds(s, n);
    forall i: nat | i <= |p|
      ensures SourceByte(m, src, n, p, i)
    {
      if i < |p| {
        assert s[i] == p[i] && p[i] in p;
      }
    }
  }

  // Memory m after the first i bytes of p have been written to dest.
  function Written(m: seq<byte>, dest: nat, p: seq<byte>, i: nat): (n: seq<byte>)
    requires i <= |p| && dest + i <= |m|
    ensures |n| == |m|
  {
    if i == 0 then m else Written(m, dest, p, i - 1)[dest + i - 1 := p[i - 1]]
  }

  lemma {:induction false} WrittenAt(m: seq<byte>, dest: nat, p: seq<byte>, i: nat, x: nat)
    requires i <= |p| && dest + i <= |m| && x < |m|
    ensures Written(m, dest, p, i)[x] == if dest <= x < dest + i then p[x - dest] else m[x]
  {
    if i > 0 {
      WrittenAt(m, dest, p, i - 1, x);
    }
  }

  // After i rounds of the copy of p, cur is the memory and was m before.
  ghost predicate Copying(m: seq<byte>, cur: seq<byte>, dest: nat, src: nat, n: nat, p: seq<byte>, i: nat) {
    && i <= |p| <= n && dest + n <= |m| && cur == Written(m, dest, p, i)
    && (i < n ==> src + i < |m| && (cur[src + i] == 0 <==> i == |p|))
  }

  lemma CopyStart(m: seq<byte>, dest: nat, src: nat, n: nat, p: seq<byte>)
    requires Copyable(m, dest, src, n, p)
    ensures Copying(m, m, dest, src, n, p, 0)
  {
    assert SourceByte(m, src, n, p, 0);
  }

  // The byte copied is the next of p: what is read has not been overwritten.
  lemma CopyStep(m: seq<byte>, cur: seq<byte>, dest: nat, src: nat, n: nat, p: seq<byte>, i: nat)
    requires Copyable(m, dest, src, n, p) && Copying(m, cur, dest, src, n, p, i) && i < |p|
    ensures Copying(m, cur[dest + i := cur[src + i]], dest, src, n, p, i + 1)
  {
    assert SourceByte(m, src, n, p, i) && SourceByte(m, src, n, p, i + 1);
    WrittenAt(m, dest, p, i, src + i);
    if i + 1 < n {
      WrittenAt(m, dest, p, i + 1, src + i + 1);
    }
  }

  method CopyByte(mem: array<byte>, d: nat, s: nat)
    requires d < mem.Length && s < mem.Length
    modifies mem
    ensures mem[..] == old(mem[..])[d := old(mem[s])]
  {
    mem[d] := mem[s];
  }

  // kernel/string.c:20-25: the string itself, p.
  method CopyString(mem: array<byte>, dest: nat, src: nat, n: nat, ghost p: seq<byte>) returns (i: nat)
    requires Copyable(mem[..], dest, src, n, p)
    modifies mem
    ensures i == |p| && mem[..] == Written(old(mem[..]), dest, p, i)
  {
    ghost var m := mem[..];
    i := 0;
    CopyStart(m, dest, src, n, p);
    while i < n && mem[src + i] != 0
      invariant Copying(m, mem[..], dest, src, n, p, i)
    {
      CopyStep(m, mem[..], dest, src, n, p, i);
      CopyByte(mem, dest + i, src + i);
      i := i + 1;
    }
  }

  // The destination may overlap the source only from below: writing it must not
  // run ahead of the bytes still to be read.
  method StrNCpy(mem: array<byte>, dest: nat, src: nat, n: nat)
    requires dest + n <= mem.Length && src <= mem.Length
    requires dest <= src || src + ReadLength(mem[src..], n) <= dest
    requires Terminated(mem[src..]) || src + n <= mem.Length
    modifies mem
    ensures forall x | 0 <= x < mem.Length ::
              mem[x] == if dest <= x < dest + n then Padded(old(mem[src..]), n)[x - dest] else old(mem[x])
  {
    ghost var p := Prefix(mem[src..], n);
    assert mem[..][src..] == mem[src..];
    StringCopyable(mem[..], dest, src, n);
    ghost var m := mem[..];
    var i := CopyString(mem, dest, src, n, p);
    ghost var m1 := mem[..];
    // The loop of kernel/string.c:27-30.
    ZeroBytes(mem, dest + i, n - i);
    forall x | 0 <= x < |m|
      ensures mem[x] == if dest <= x < dest + n then Padded(old(mem[src..]), n)[x - dest] else m[x]
    {
      WrittenAt(m, dest, p, i, x);
      assert mem[x] == if dest + i <= x < dest + n then 0 else m1[x];
    }
  }

  // Whatever the overlap, the destination holds what the source held before.
  method MemMove(mem: array<byte>, dest: nat, src: nat, len: nat)
    requires dest + len <= mem.Length && src + len <= mem.Length
    modifies mem
    ensures forall x | 0 <= x < mem.Length ::
              mem[x] == if dest <= x < dest + len then old(mem[src..src + len])[x - dest] else old(mem[x])
  {
    ghost var m := mem[..];
    ghost var s := mem[src..src + len];
    if dest < src {
      for i := 0 to len
        invariant forall x | 0 <= x < mem.Length :: mem[x] == if dest <= x < dest + i then s[x - dest] else m[x]
      {
        assert m[src + i] == s[i];
        mem[dest + i] := mem[src + i];
      }
    } else {
      for i := len downto 0
        invariant forall x | 0 <= x < mem.Length :: mem[x] == if dest + i <= x < dest + len then s[x - dest] else m[x]
      {
        assert m[src + i] == s[i];
        mem[dest + i] := mem[src + i];
      }
    }
  }
}
