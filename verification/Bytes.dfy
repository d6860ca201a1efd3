/** Byte strings, little-endian numbers, and in-place overwriting of a stretch of bytes.

    Every number of the file format is stored little endian (db/storage/edb/Endian.hpp); the
    host is taken to be little endian too, since the source's constructor stores host order. */
module Bytes {
  newtype byte = x: int | 0 <= x < 256

  const U32_LIMIT: nat := 0x1_0000_0000
  const U64_LIMIT: nat := 0x1_0000_0000_0000_0000

  function Pow256(w: nat): nat {
    if w == 0 then 1 else 256 * Pow256(w - 1)
  }

  /** The `w` low-order bytes of `n`, least significant first. */
  function LE(n: nat, w: nat): (s: seq<byte>)
    ensures |s| == w
  {
    if w == 0 then [] else [(n % 256) as byte] + LE(n / 256, w - 1)
  }

  /** The number a little-endian byte string denotes. */
  function Val(s: seq<byte>): nat {
    if |s| == 0 then 0 else s[0] as nat + 256 * Val(s[1..])
  }

  lemma {:induction false} ValLE(n: nat, w: nat)
    requires n < Pow256(w)
    ensures Val(LE(n, w)) == n
  {
    if w > 0 {
      ValLE(n / 256, w - 1);
      assert LE(n, w)[1..] == LE(n / 256, w - 1);
    }
  }

  lemma {:induction false} LEVal(s: seq<byte>)
    ensures LE(Val(s), |s|) == s
  {
    if |s| > 0 {
      LEVal(s[1..]);
      assert s == [s[0]] + s[1..];
      assert Val(s) % 256 == s[0] as nat && Val(s) / 256 == Val(s[1..]);
    }
  }

  /** The least significant byte comes first. */
  lemma LittleEndian(s: seq<byte>)
    requires |s| == 4
    ensures Val(s) == s[0] as nat + 0x100 * s[1] as nat + 0x1_0000 * s[2] as nat + 0x100_0000 * s[3] as nat
  {
    assert Val(s) == s[0] as nat + 256 * Val(s[1..]);
    assert Val(s[1..]) == s[1] as nat + 256 * Val(s[1..][1..]) && s[1..][1..] == s[2..];
    assert Val(s[2..]) == s[2] as nat + 256 * Val(s[2..][1..]) && s[2..][1..] == s[3..];
    assert Val(s[3..]) == s[3] as nat + 256 * Val(s[3..][1..]);
  }

  lemma {:induction false} ValBound(s: seq<byte>)
    ensures Val(s) < Pow256(|s|)
  {
    if |s| > 0 {
      ValBound(s[1..]);
    }
  }

  /** Widths used by the format. */
  lemma Widths()
    ensures Pow256(1) == 256
    ensures Pow256(2) == 0x1_0000
    ensures Pow256(4) == U32_LIMIT
    ensures Pow256(8) == U64_LIMIT
  {
    assert Pow256(3) == 0x100_0000;
    assert Pow256(5) == 256 * Pow256(4);
    assert Pow256(6) == 256 * Pow256(5);
    assert Pow256(7) == 256 * Pow256(6);
  }

  function Zeros(n: nat): (s: seq<byte>)
    ensures |s| == n
  {
    seq(n, _ => 0 as byte)
  }

  /** `d` with the bytes from `off` on replaced by `bs`. */
  function Splice(d: seq<byte>, off: nat, bs: seq<byte>): (r: seq<byte>)
    requires off + |bs| <= |d|
    ensures |r| == |d|
  {
    d[..off] + bs + d[off + |bs|..]
  }

  lemma SpliceGet(d: seq<byte>, off: nat, bs: seq<byte>)
    requires off + |bs| <= |d|
    ensures Splice(d, off, bs)[off..off + |bs|] == bs
  {
  }

  /** A stretch that does not meet the overwritten one keeps its bytes. */
  lemma SpliceFrame(d: seq<byte>, off: nat, bs: seq<byte>, lo: nat, hi: nat)
    requires off + |bs| <= |d|
    requires lo <= hi <= |d|
    requires hi <= off || off + |bs| <= lo
    ensures Splice(d, off, bs)[lo..hi] == d[lo..hi]
  {
    var r := Splice(d, off, bs);
    forall i | lo <= i < hi ensures r[i] == d[i] {
    }
  }

  /** Overwriting inside a window is overwriting the window. */
  lemma SpliceInside(d: seq<byte>, off: nat, bs: seq<byte>, lo: nat, hi: nat)
    requires lo <= off && off + |bs| <= hi <= |d|
    ensures Splice(d, off, bs)[lo..hi] == Splice(d[lo..hi], off - lo, bs)
  {
    var l, r := Splice(d, off, bs)[lo..hi], Splice(d[lo..hi], off - lo, bs);
    forall i | 0 <= i < hi - lo ensures l[i] == r[i] {
      assert l[i] == Splice(d, off, bs)[lo + i];
    }
  }

  /** Overwrites a stretch of an array. */
  method Poke(a: array<byte>, off: nat, bs: seq<byte>)
    requires off + |bs| <= a.Length
    modifies a
    ensures a[..] == Splice(old(a[..]), off, bs)
  {
    forall i | 0 <= i < |bs| {
      a[off + i] := bs[i];
    }
    assert a[..off] == old(a[..])[..off];
    assert a[off..off + |bs|] == bs;
    assert a[off + |bs|..] == old(a[..])[off + |bs|..];
  }
}
