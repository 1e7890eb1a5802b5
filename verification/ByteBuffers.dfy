/** Writing bytes into buffers: what a run of `memcpy` calls leaves behind. */
module ByteBuffers {
  import opened MachineTypes

  /** `d` after the bytes `b` are stored one by one from `at` on. */
  ghost function Splice(d: seq<byte>, at: nat, b: seq<byte>): (r: seq<byte>)
    requires at + |b| <= |d|
    ensures |r| == |d|
    decreases |b|
  {
    if b == [] then d else Splice(d[at := b[0]], at + 1, b[1..])
  }

  lemma {:induction false} SpliceMeaning(d: seq<byte>, at: nat, b: seq<byte>)
    requires at + |b| <= |d|
    ensures Splice(d, at, b) == d[..at] + b + d[at + |b|..]
    decreases |b|
  {
    if b != [] {
      SpliceMeaning(d[at := b[0]], at + 1, b[1..]);
    }
  }

  lemma SpliceNothing(d: seq<byte>, at: nat)
    requires at <= |d|
    ensures Splice(d, at, []) == d
  {
  }

  lemma {:induction false} SpliceAppend(d: seq<byte>, at: nat, a: seq<byte>, b: seq<byte>)
    requires at + |a| + |b| <= |d|
    ensures Splice(Splice(d, at, a), at + |a|, b) == Splice(d, at, a + b)
    decreases |a|
  {
    if a == [] {
      assert a + b == b;
    } else {
      assert (a + b)[1..] == a[1..] + b;
      SpliceAppend(d[at := a[0]], at + 1, a[1..], b);
    }
  }

  lemma SliceOfSlice(s: seq<byte>, lo: nat, hi: nat, i: nat, j: nat)
    requires lo <= hi <= |s| && i <= j <= hi - lo
    ensures s[lo..hi][i..j] == s[lo + i..lo + j]
  {
    var t := s[lo..hi];
    assert forall k | i <= k < j :: t[k] == s[lo + k];
  }

  /** Little-endian 32-bit fields. */
  function Le32(s: seq<byte>, at: nat): uint32
    requires at + 4 <= |s|
  {
    s[at] as int + 0x100 * (s[at + 1] as int) + 0x1_0000 * (s[at + 2] as int) + 0x100_0000 * (s[at + 3] as int)
  }

  function ToLe32(v: uint32): seq<byte> {
    [v % 0x100, v / 0x100 % 0x100, v / 0x1_0000 % 0x100, v / 0x100_0000]
  }

  lemma Le32RoundTrip(v: uint32)
    ensures Le32(ToLe32(v), 0) == v
  {
    assert v / 0x1_0000 == v / 0x100 / 0x100;
    assert v / 0x100_0000 == v / 0x1_0000 / 0x100;
  }

  lemma Le32Example()
    ensures Le32([0x78, 0x56, 0x34, 0x12], 0) == 0x1234_5678 && ToLe32(0x1234_5678) == [0x78, 0x56, 0x34, 0x12]
  {
  }

  /** A buffer cleared by `bzero`. */
  function Zeros(n: nat): (z: seq<byte>)
    ensures |z| == n && forall i | 0 <= i < n :: z[i] == 0
  {
    seq(n, _ => 0)
  }

  /** `memcpy` of `count` bytes of `src` into `dst`. */
  method CopyBytes(dst: array<byte>, at: nat, src: seq<byte>, start: nat, count: nat)
    requires at + count <= dst.Length && start + count <= |src|
    modifies dst
    ensures dst[..] == Splice(old(dst[..]), at, src[start..start + count])
  {
    ghost var was, b := dst[..], src[start..start + count];
    SpliceMeaning(was, at, b);
    forall i | 0 <= i < count {
      dst[at + i] := src[start + i];
    }
    assert dst[..] == was[..at] + b + was[at + count..];
  }
}
