/** Bytes of the volume image, Python slicing and reading, and unsigned little-endian decoding. */
module Bytes {
  import opened Results

  type Byte = b: int | 0 <= b < 256

  function Min(a: int, b: int): int {
    if a <= b then a else b
  }

  /** Python's `s[i:j]` for non-negative bounds: both ends are clamped to the length of `s`. */
  function Slice<T>(s: seq<T>, i: nat, j: nat): (r: seq<T>)
    ensures |r| == if i < j && i < |s| then Min(j, |s|) - i else 0
    ensures forall k :: 0 <= k < |r| ==> r[k] == s[i + k]
    ensures j <= |s| ==> r == s[Min(i, j)..j]
  {
    if i < |s| && i < j then s[i..Min(j, |s|)] else []
  }

  /** `seek(offset)` followed by `read(n)`: short past the end of the image, empty beyond it. */
  function ReadAt(image: seq<Byte>, offset: nat, n: nat): (r: seq<Byte>)
    ensures |r| == if offset < |image| then Min(n, |image| - offset) else 0
    ensures forall k :: 0 <= k < |r| ==> offset + k < |image| && r[k] == image[offset + k]
    ensures offset + n <= |image| ==> r == image[offset..offset + n]
  {
    Slice(image, offset, offset + n)
  }

  /** A seek to an offset that may be negative (a sector number computed from a cluster), then a read.
      Seeking before the start of the file raises. */
  function SeekRead(image: seq<Byte>, offset: int, n: nat): (r: Result<seq<Byte>>)
    ensures r.Err? <==> offset < 0
    ensures r.Ok? ==> |r.value| <= n && r.value == Slice(image, offset, offset + n)
  {
    if offset < 0 then Err(NegativeSeek(offset)) else Ok(ReadAt(image, offset, n))
  }

  function Pow256(n: nat): (r: nat)
    ensures r > 0
  {
    if n == 0 then 1 else 256 * Pow256(n - 1)
  }

  /** `int.from_bytes(data, "little")` without sign: the first byte is the least significant. */
  function Unpack(data: seq<Byte>): (r: nat)
    ensures r < Pow256(|data|)
  {
    if data == [] then 0 else data[0] + 256 * Unpack(data[1..])
  }

  /** The `k` little-endian bytes of `n` modulo 256^k; the inverse of `Unpack`. */
  function Encode(n: nat, k: nat): (r: seq<Byte>)
    ensures |r| == k
  {
    if k == 0 then [] else [n % 256] + Encode(n / 256, k - 1)
  }

  /** Positional reference definition: the sum of data[i] * 256^i, built from the most significant end. */
  function PositionalSum(data: seq<Byte>): nat {
    if data == [] then 0
    else PositionalSum(data[..|data| - 1]) + Pow256(|data| - 1) * data[|data| - 1]
  }

  lemma {:induction false} UnpackEncode(n: nat, k: nat)
    requires n < Pow256(k)
    ensures Unpack(Encode(n, k)) == n
  {
    if k > 0 {
      var e := Encode(n, k);
      assert e[1..] == Encode(n / 256, k - 1);
      assert n / 256 < Pow256(k - 1);
      UnpackEncode(n / 256, k - 1);
    }
  }

  lemma {:induction false} EncodeUnpack(data: seq<Byte>)
    ensures Encode(Unpack(data), |data|) == data
  {
    if data != [] {
      var u := Unpack(data);
      assert u % 256 == data[0] && u / 256 == Unpack(data[1..]);
      EncodeUnpack(data[1..]);
    }
  }

  /** Splitting a byte string splits its value: the tail is worth 256^|a| per unit. */
  lemma {:induction false} UnpackAppend(a: seq<Byte>, b: seq<Byte>)
    ensures Unpack(a + b) == Unpack(a) + Pow256(|a|) * Unpack(b)
  {
    if a != [] {
      assert (a + b)[1..] == a[1..] + b;
      UnpackAppend(a[1..], b);
      assert Unpack(a + b) == a[0] + 256 * Unpack(a[1..] + b);
      ShiftDistributes(a[0], Unpack(a[1..]), Pow256(|a| - 1), Unpack(b));
    } else {
      assert a + b == b;
    }
  }

  lemma ShiftDistributes(c: int, x: int, p: int, u: int)
    ensures c + 256 * (x + p * u) == (c + 256 * x) + (256 * p) * u
  {
  }

  lemma {:induction false} UnpackIsPositionalSum(data: seq<Byte>)
    ensures Unpack(data) == PositionalSum(data)
  {
    if data != [] {
      var n := |data| - 1;
      var front, last := data[..n], data[n];
      assert data == front + [last];
      UnpackAppend(front, [last]);
      assert Unpack([last]) == last by {
        assert [last][1..] == [];
      }
      UnpackIsPositionalSum(front);
      assert PositionalSum(data) == PositionalSum(front) + Pow256(n) * last;
    }
  }

  /** Byte i of `s`, or 0 past its end (a short read contributes nothing to the value). */
  function ByteAt(s: seq<Byte>, i: nat): Byte {
    if i < |s| then s[i] else 0
  }

  /** The unsigned little-endian 16-bit value at offset i, short reads padded with zeros. */
  function U16At(s: seq<Byte>, i: nat): (r: nat)
    ensures r < 0x1_0000
  {
    ByteAt(s, i) + 0x100 * ByteAt(s, i + 1)
  }

  /** The unsigned little-endian 32-bit value at offset i, short reads padded with zeros. */
  function U32At(s: seq<Byte>, i: nat): (r: nat)
    ensures r < 0x1_0000_0000
  {
    U16At(s, i) + 0x1_0000 * U16At(s, i + 2)
  }

  /** Unpacking a slice peels off its first byte, which is 0 once the slice starts past the end. */
  lemma UnpackSliceStep(s: seq<Byte>, i: nat, j: nat)
    requires i < j
    ensures Unpack(Slice(s, i, j)) == ByteAt(s, i) + 256 * Unpack(Slice(s, i + 1, j))
  {
    if i < |s| {
      assert Slice(s, i, j)[1..] == Slice(s, i + 1, j);
    } else {
      assert Slice(s, i, j) == [] && Slice(s, i + 1, j) == [];
    }
  }

  /** `unpack(s[i:i+2])` is the 16-bit value at offset i. */
  lemma U16AtIsUnpack(s: seq<Byte>, i: nat)
    ensures U16At(s, i) == Unpack(Slice(s, i, i + 2))
  {
    UnpackSliceStep(s, i, i + 2);
    UnpackSliceStep(s, i + 1, i + 2);
    assert Slice(s, i + 2, i + 2) == [];
  }

  /** `unpack(s[i:i+4])` is the 32-bit value at offset i. */
  lemma U32AtIsUnpack(s: seq<Byte>, i: nat)
    ensures U32At(s, i) == Unpack(Slice(s, i, i + 4))
  {
    UnpackSliceStep(s, i, i + 4);
    UnpackSliceStep(s, i + 1, i + 4);
    UnpackSliceStep(s, i + 2, i + 4);
    UnpackSliceStep(s, i + 3, i + 4);
    assert Slice(s, i + 4, i + 4) == [];
  }
}
