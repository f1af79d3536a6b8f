/**
 * Python `bytes`/`bytearray` operations used by the JPEG surgery: slicing with
 * Python's clamping of bounds, slice assignment, `find`, and the big-endian
 * 16-bit `struct` codes `>H`.
 */
module PyBytes {
  import opened Wrappers

  type byte = x: int | 0 <= x < 256
  type bytes = seq<byte>

  /** A slice bound `i` normalised against a sequence of length `n`, as Python does. */
  function Bound(i: int, n: nat): (r: nat)
    ensures r <= n
    ensures 0 <= i ==> r == if i <= n then i else n
    ensures i < 0 ==> r == if -i <= n then n + i else 0
  {
    if i < 0 then (if i + n < 0 then 0 else i + n) else if i > n then n else i
  }

  /** `s[i:j]`. */
  function Slice<T>(s: seq<T>, i: int, j: int): (r: seq<T>)
    ensures |r| <= |s|
    ensures 0 <= i <= j <= |s| ==> r == s[i..j]
    ensures 0 <= i <= |s| < j ==> r == s[i..]
    ensures 0 <= i && |s| < i ==> r == []
  {
    var lo := Bound(i, |s|);
    var hi := Bound(j, |s|);
    if hi <= lo then [] else s[lo..hi]
  }

  /** `s[i:j] = v` on a bytearray: the elements between the normalised bounds are replaced by `v`. */
  function SliceAssign<T>(s: seq<T>, i: int, j: int, v: seq<T>): (r: seq<T>)
    ensures 0 <= i <= j <= |s| ==> r == s[..i] + v + s[j..]
    ensures 0 <= j <= i <= |s| ==> r == s[..i] + v + s[i..]
  {
    var lo := Bound(i, |s|);
    var hi := Bound(j, |s|);
    var hi' := if hi < lo then lo else hi;
    s[..lo] + v + s[hi'..]
  }

  /** The pattern `pat` occurs in `s` at index `k`. */
  predicate MatchAt(s: bytes, pat: bytes, k: int)
  {
    0 <= k && k + |pat| <= |s| && s[k..k + |pat|] == pat
  }

  /** `s.find(pat, start)`: the first index at or after `start` where `pat` occurs, or -1. */
  function FindFrom(s: bytes, pat: bytes, start: nat): (r: int)
    ensures r == -1 || (start <= r && MatchAt(s, pat, r))
    ensures r == -1 <==> forall k :: start <= k ==> !MatchAt(s, pat, k)
    ensures forall k :: start <= k < r ==> !MatchAt(s, pat, k)
    decreases |s| - start
  {
    if start + |pat| > |s| then -1
    else if s[start..start + |pat|] == pat then start
    else FindFrom(s, pat, start + 1)
  }

  /** `s.find(pat)`. */
  function Find(s: bytes, pat: bytes): int
  {
    FindFrom(s, pat, 0)
  }

  /** Searching a suffix and adding the offset back, `s[o:].find(pat) + o`, agrees with `s.find(pat, o)`. */
  lemma {:induction false} FindInSuffix(s: bytes, pat: bytes, o: nat)
    requires o <= |s|
    ensures Find(s[o..], pat) == -1 <==> FindFrom(s, pat, o) == -1
    ensures Find(s[o..], pat) != -1 ==> Find(s[o..], pat) + o == FindFrom(s, pat, o)
  {
    var t := s[o..];
    var a := Find(t, pat);
    var b := FindFrom(s, pat, o);
    if a != -1 {
      MatchShift(s, pat, o, a);
    }
    if b != -1 {
      MatchShift(s, pat, o, b - o);
    }
  }

  /** A match in the suffix `s[o..]` at `k` is a match in `s` at `k + o`, and back. */
  lemma MatchShift(s: bytes, pat: bytes, o: nat, k: int)
    requires o <= |s| && 0 <= k
    ensures MatchAt(s[o..], pat, k) <==> MatchAt(s, pat, k + o)
  {
    if k + |pat| <= |s| - o {
      assert s[o..][k..k + |pat|] == s[k + o..k + o + |pat|];
    }
  }

  /** A value that `pack(">H", v)` accepts. */
  predicate IsShort(v: int)
  {
    0 <= v < 0x1_0000
  }

  /** The two big-endian bytes of a 16-bit value. */
  function Be16(v: int): (r: bytes)
    requires IsShort(v)
    ensures |r| == 2 && (r[0] as int) * 256 + r[1] == v
  {
    [v / 256, v % 256]
  }

  /** `pack(">H", v)`: two big-endian bytes, or `struct.error` outside 0..65535. */
  function CodeShort(v: int): (r: Result<bytes>)
    ensures r.Ok? <==> IsShort(v)
    ensures r.Ok? ==> r.value == Be16(v)
    ensures r.Err? ==> r.error == StructError
  {
    if IsShort(v) then Ok(Be16(v)) else Err(StructError)
  }

  /** `unpack(">H", b)[0]`: the big-endian value of exactly two bytes, else `struct.error`. */
  function UnpackShort(b: bytes): (r: Result<int>)
    ensures r.Ok? <==> |b| == 2
    ensures r.Ok? ==> 0 <= r.value < 0x1_0000 && r.value == (b[0] as int) * 256 + b[1]
    ensures r.Err? ==> r.error == StructError
  {
    if |b| == 2 then Ok((b[0] as int) * 256 + b[1]) else Err(StructError)
  }

  /** Decoding an encoded short gives the value back, and encoding a decoded pair gives the pair back. */
  lemma ShortRoundTrip(v: int, b: bytes)
    ensures IsShort(v) ==> UnpackShort(CodeShort(v).value) == Ok(v)
    ensures |b| == 2 ==> CodeShort(UnpackShort(b).value) == Ok(b)
  {
    if |b| == 2 {
      var x := (b[0] as int) * 256 + b[1];
      assert x / 256 == b[0] && x % 256 == b[1];
      assert Be16(x) == b;
    }
  }

  /** A first occurrence survives any change that keeps the bytes up to its end. */
  lemma FindStable(a: bytes, b: bytes, pat: bytes, m: nat)
    requires m <= |a| && m <= |b| && a[..m] == b[..m]
    requires 0 <= Find(a, pat) && Find(a, pat) + |pat| <= m
    ensures Find(b, pat) == Find(a, pat)
  {
    var i := Find(a, pat);
    SameWindow(a, b, m, i, i + |pat|);
    assert MatchAt(b, pat, i);
    forall k | 0 <= k < i
      ensures !MatchAt(b, pat, k)
    {
      if k + |pat| <= |b| {
        SameWindow(a, b, m, k, k + |pat|);
        assert !MatchAt(a, pat, k);
      }
    }
    FindFirst(b, pat, i);
  }

  /** Two byte strings that agree up to `m` agree on every window inside it. */
  lemma SameWindow(a: bytes, b: bytes, m: nat, i: nat, j: nat)
    requires i <= j <= m <= |a| && m <= |b| && a[..m] == b[..m]
    ensures a[i..j] == b[i..j]
  {
    forall k | i <= k < j
      ensures a[k] == b[k]
    {
      assert a[k] == a[..m][k] && b[k] == b[..m][k];
    }
  }

  /** An occurrence with none before it is what `find` returns. */
  lemma FindFirst(s: bytes, pat: bytes, i: nat)
    requires MatchAt(s, pat, i)
    requires forall k :: 0 <= k < i ==> !MatchAt(s, pat, k)
    ensures Find(s, pat) == i
  {
    assert Find(s, pat) != -1;
  }

  /** `unpack(">b", b)[0]`: exactly one byte read as a two's-complement value, else `struct.error`. */
  function UnpackSignedByte(b: bytes): (r: Result<int>)
    ensures r.Ok? <==> |b| == 1
    ensures r.Ok? ==> -128 <= r.value < 128 && (r.value - b[0]) % 256 == 0
    ensures r.Err? ==> r.error == StructError
  {
    if |b| != 1 then Err(StructError) else if b[0] < 128 then Ok(b[0] as int) else Ok(b[0] as int - 256)
  }

  /** `unpack(">h", b)[0]`: exactly two big-endian bytes read as a two's-complement value, else `struct.error`. */
  function UnpackSignedShort(b: bytes): (r: Result<int>)
    ensures r.Ok? <==> |b| == 2
    ensures r.Ok? ==> -0x8000 <= r.value < 0x8000 && (r.value - UnpackShort(b).value) % 0x1_0000 == 0
    ensures r.Err? ==> r.error == StructError
  {
    var u :- UnpackShort(b);
    if u < 0x8000 then Ok(u) else Ok(u - 0x1_0000)
  }

  /** `s[i]` for a Python list or bytes: negative indices count from the end, others raise `IndexError`. */
  function Index<T>(s: seq<T>, i: int): (r: Result<T>)
    ensures r.Ok? <==> -|s| <= i < |s|
    ensures 0 <= i < |s| ==> r == Ok(s[i])
    ensures -|s| <= i < 0 ==> r == Ok(s[|s| + i])
    ensures r.Err? ==> r.error == IndexError
  {
    if 0 <= i < |s| then Ok(s[i])
    else if -|s| <= i < 0 then Ok(s[|s| + i])
    else Err(IndexError)
  }

  /** A list without repeated elements. */
  predicate Distinct<T(==)>(s: seq<T>)
  {
    forall i, j :: 0 <= i < j < |s| ==> s[i] != s[j]
  }
}
