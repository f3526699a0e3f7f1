/** Bytes, fixed-width integers and the two byte orders the storage engine writes. */
module Bytes {

  type Byte = b: int | 0 <= b < 256
  type Key = seq<Byte>
  type Blob = seq<Byte>

  const TWO_16: int := 0x1_0000
  const TWO_32: int := 0x1_0000_0000
  const TWO_63: int := 0x8000_0000_0000_0000
  const TWO_64: int := 0x1_0000_0000_0000_0000

  type Uint32 = n: int | 0 <= n < 0x1_0000_0000
  type Uint64 = n: int | 0 <= n < 0x1_0000_0000_0000_0000
  type Int64 = n: int | -0x8000_0000_0000_0000 <= n < 0x8000_0000_0000_0000

  datatype Option<+T> = None | Some(value: T)

  /** Go's `uint64(x)` of a signed value, and back. */
  function ToUint64(x: Int64): (u: Uint64)
    ensures ToInt64(u) == x
  {
    if x < 0 then x + TWO_64 else x
  }

  function ToInt64(u: Uint64): Int64 {
    if u < TWO_63 then u else u - TWO_64
  }

  function Pow256(width: nat): (p: nat)
    ensures p > 0
  {
    if width == 0 then 1 else 256 * Pow256(width - 1)
  }

  lemma Widths()
    ensures Pow256(2) == TWO_16
    ensures Pow256(4) == TWO_32
    ensures Pow256(8) == TWO_64
  {
    assert Pow256(2) == 256 * Pow256(1);
    assert Pow256(4) == 256 * Pow256(3) == 256 * 256 * Pow256(2);
    assert Pow256(6) == 256 * Pow256(5) == 256 * 256 * Pow256(4);
    assert Pow256(8) == 256 * Pow256(7) == 256 * 256 * Pow256(6);
  }

  function LittleEndian(v: nat, width: nat): (bs: seq<Byte>)
    ensures |bs| == width
  {
    if width == 0 then [] else [v % 256] + LittleEndian(v / 256, width - 1)
  }

  function FromLittleEndian(bs: seq<Byte>): nat {
    if bs == [] then 0 else bs[0] + 256 * FromLittleEndian(bs[1..])
  }

  function BigEndian(v: nat, width: nat): (bs: seq<Byte>)
    ensures |bs| == width
  {
    if width == 0 then [] else BigEndian(v / 256, width - 1) + [v % 256]
  }

  function FromBigEndian(bs: seq<Byte>): nat {
    if bs == [] then 0 else FromBigEndian(bs[..|bs| - 1]) * 256 + bs[|bs| - 1]
  }

  /** Dividing by 256 first and by `p` then. */
  lemma DivideTwice(v: nat, p: nat)
    requires p > 0
    ensures v / 256 / p == v / (256 * p)
  {
    var u := v / 256;
    var q, r := u / p, u % p;
    assert u == p * q + r;
    QuotientIs(v, 256 * p, q, 256 * r + v % 256);
  }

  lemma QuotientIs(v: nat, d: nat, q: nat, r: nat)
    requires v == d * q + r && r < d
    ensures v / d == q
  {
    var a: int := v / d - q;
    assert d * (v / d) + v % d == d * q + r;
    assert d * a == r - v % d;
    MultipleOutside(d, a);
  }

  /** A multiple other than zero is at least as far from it as the factor. */
  lemma MultipleOutside(d: int, a: int)
    requires d > 0
    ensures a >= 1 ==> d * a >= d
    ensures a <= -1 ==> d * a <= -d
  {
  }

  /** Byte `i` is the digit of weight 256 to the power `i`: the lowest comes first. */
  lemma {:induction false} LittleEndianAt(v: nat, width: nat, i: nat)
    requires i < width
    ensures LittleEndian(v, width)[i] == v / Pow256(i) % 256
  {
    if i > 0 {
      LittleEndianAt(v / 256, width - 1, i - 1);
      DivideTwice(v, Pow256(i - 1));
    }
  }

  /** Here the highest comes first. */
  lemma {:induction false} BigEndianAt(v: nat, width: nat, i: nat)
    requires i < width
    ensures BigEndian(v, width)[i] == v / Pow256(width - 1 - i) % 256
  {
    if i < width - 1 {
      BigEndianAt(v / 256, width - 1, i);
      DivideTwice(v, Pow256(width - 2 - i));
    }
  }

  lemma {:induction false} LittleEndianRoundTrip(v: nat, width: nat)
    requires v < Pow256(width)
    ensures FromLittleEndian(LittleEndian(v, width)) == v
  {
    if width > 0 {
      LittleEndianRoundTrip(v / 256, width - 1);
      assert LittleEndian(v, width)[1..] == LittleEndian(v / 256, width - 1);
    }
  }

  lemma {:induction false} BigEndianRoundTrip(v: nat, width: nat)
    requires v < Pow256(width)
    ensures FromBigEndian(BigEndian(v, width)) == v
  {
    if width > 0 {
      BigEndianRoundTrip(v / 256, width - 1);
      assert BigEndian(v, width)[..width - 1] == BigEndian(v / 256, width - 1);
    }
  }

  lemma {:induction false} FromLittleEndianBound(bs: seq<Byte>)
    ensures FromLittleEndian(bs) < Pow256(|bs|)
  {
    if bs != [] {
      FromLittleEndianBound(bs[1..]);
    }
  }

  lemma SliceOfSlice(s: seq<Byte>, a: nat, b: nat, c: nat, d: nat)
    requires a <= b <= |s| && c <= d <= b - a
    ensures s[a..b][c..d] == s[a + c..a + d]
  {
    var inner := s[a..b];
    forall i | 0 <= i < d - c ensures inner[c..d][i] == s[a + c..a + d][i] {
      assert inner[c..d][i] == inner[c + i] == s[a + c + i];
    }
  }

  lemma SliceOfPrefix(s: seq<Byte>, t: seq<Byte>, lo: nat, hi: nat)
    requires lo <= hi <= |s|
    ensures (s + t)[lo..hi] == s[lo..hi]
  {
  }

  lemma SliceOfEqual(a: seq<Byte>, b: seq<Byte>, from: nat, to: nat, lo: nat, hi: nat)
    requires from <= lo <= hi <= to <= |a| && to <= |b| && a[from..to] == b[from..to]
    ensures a[lo..hi] == b[lo..hi]
  {
    SliceOfSlice(a, from, to, lo - from, hi - from);
    SliceOfSlice(b, from, to, lo - from, hi - from);
  }

  lemma LastPart(s: seq<Byte>, t: seq<Byte>)
    ensures (s + t)[|s|..|s| + |t|] == t
  {
  }

  lemma Assoc<T>(a: seq<T>, b: seq<T>, c: seq<T>)
    ensures a + (b + c) == a + b + c
  {
  }

  lemma Middle(a: seq<Byte>, b: seq<Byte>, c: seq<Byte>)
    ensures (a + b + c)[|a|..|a| + |b|] == b
  {
  }

  /** `file.WriteAt(bs, off)`: overwrite in place, growing the file when the write runs past its end. */
  function WriteAt(file: seq<Byte>, off: nat, bs: seq<Byte>): (file': seq<Byte>)
    requires off <= |file|
    ensures |file'| == if off + |bs| <= |file| then |file| else off + |bs|
    ensures file'[off..off + |bs|] == bs
    ensures file'[..off] == file[..off]
    ensures off + |bs| <= |file| ==> file'[off + |bs|..] == file[off + |bs|..]
  {
    file[..off] + bs + (if off + |bs| <= |file| then file[off + |bs|..] else [])
  }

  /** Slices outside the written range are what they were. */
  lemma WriteAtElsewhere(file: seq<Byte>, off: nat, bs: seq<Byte>, lo: nat, hi: nat)
    requires off <= |file| && lo <= hi <= |file|
    requires hi <= off || off + |bs| <= lo
    ensures WriteAt(file, off, bs)[lo..hi] == file[lo..hi]
  {
    var file' := WriteAt(file, off, bs);
    forall i | lo <= i < hi ensures file'[i] == file[i] {
      if hi <= off {
        assert file'[i] == file'[..off][i] == file[..off][i];
      } else {
        assert file'[i] == file'[off + |bs|..][i - off - |bs|] == file[off + |bs|..][i - off - |bs|];
      }
    }
    assert file'[lo..hi] == file[lo..hi];
  }

  /** Fills `width` bytes of a buffer in place, as `binary.LittleEndian.PutUint*` does. */
  method PutLittleEndian(b: array<Byte>, o: nat, v: nat, width: nat)
    requires o + width <= b.Length
    modifies b
    ensures b[..o + width] == old(b[..o]) + LittleEndian(v, width)
    ensures b[o + width..] == old(b[o + width..])
  {
    var rest := v;
    ghost var done := [];
    for i := 0 to width
      invariant b[o + width..] == old(b[o + width..])
      invariant b[..o + i] == old(b[..o]) + done
      invariant rest >= 0 && LittleEndian(v, width) == done + LittleEndian(rest, width - i)
    {
      var digit: Byte := rest % 256;
      Assoc(old(b[..o]), done, [digit]);
      Assoc(done, [digit], LittleEndian(rest / 256, width - i - 1));
      b[o + i] := digit;
      assert b[..o + i + 1] == b[..o + i] + [digit];
      done := done + [digit];
      rest := rest / 256;
    }
    assert done + LittleEndian(rest, 0) == done;
  }
}
