/** Byte-level vocabulary shared by the host and the device models: the byte
    type, unsigned machine words and an Option for absent values. */
module Bytes {

  /** One octet on the wire, as an integer in [0, 255]. */
  newtype byte = x: int | 0 <= x < 256

  /** Bitwise exclusive or of two octets (C's `^` on `uint8_t`). */
  function Xor(a: byte, b: byte): byte
  {
    ((a as bv8) ^ (b as bv8)) as byte
  }

  /** An unsigned 32-bit quantity (`uint32_t`); also the raw bit pattern of a
      `float`, which the model treats as an opaque 4-byte value. */
  type u32 = x: nat | x < 0x1_0000_0000

  /** An unsigned 16-bit quantity (`uint16_t`). */
  type u16 = x: nat | x < 0x1_0000

  const U32_MODULUS: nat := 0x1_0000_0000
  const U16_MODULUS: nat := 0x1_0000

  datatype Option<+T> = None | Some(value: T)

  /** `n` zero bytes, as left by `memset(dest, 0, n)`. */
  function Zeros(n: nat): (r: seq<byte>)
    ensures |r| == n
    ensures forall i :: 0 <= i < n ==> r[i] == 0
  {
    seq(n, _ => 0)
  }

  /** True when `b` occurs nowhere in `s`. */
  predicate Free(s: seq<byte>, b: byte)
  {
    forall i :: 0 <= i < |s| ==> s[i] != b
  }

  /** The blocks of `bs` laid end to end, as a reply buffer is filled by
      successive writes at a growing offset. */
  function Concat(bs: seq<seq<byte>>): seq<byte>
    decreases |bs|
  {
    if |bs| == 0 then [] else Concat(bs[..|bs| - 1]) + bs[|bs| - 1]
  }

  lemma MulMonotone(k: nat, a: nat, b: nat)
    requires a <= b
    ensures k * a <= k * b
  {
  }

  lemma MulSucc(k: nat, a: nat)
    ensures k * (a + 1) == k * a + k
  {
  }

  /** Division with remainder is unique: a decomposition `y = d*n + r` with
      `r < n` gives `y / n` and `y % n`. */
  lemma ModUnique(y: nat, d: nat, r: nat, n: nat)
    requires n >= 1 && r < n && y == d * n + r
    ensures y / n == d && y % n == r
  {
    var d', r' := y / n, y % n;
    assert y == d' * n + r';
    if d' > d {
      MulMonotone(n, d + 1, d');
    } else if d' < d {
      MulMonotone(n, d' + 1, d);
    }
  }

  /** Stepping a circular index once and then `k` more times is stepping it
      `k + 1` times. */
  lemma {:induction false} ModSucc(a: nat, k: nat, n: nat)
    requires n >= 1
    ensures ((a + 1) % n + k) % n == (a + 1 + k) % n
    decreases k
  {
    var x := a + 1;
    if k == 0 {
      ModUnique(x % n, 0, x % n, n);
    } else {
      ModSucc(a, k - 1, n);
      ModStep(x % n + k - 1, n);
      ModStep(x + k - 1, n);
    }
  }

  /** Advancing a circular index: one more, or back to 0 at the end. */
  lemma ModStep(a: nat, n: nat)
    requires n >= 1
    ensures a % n + 1 < n ==> (a + 1) % n == a % n + 1
    ensures a % n + 1 == n ==> (a + 1) % n == 0
  {
    var q, r := a / n, a % n;
    assert a == q * n + r;
    if r + 1 < n {
      ModUnique(a + 1, q, r + 1, n);
    } else {
      assert a + 1 == (q + 1) * n;
      ModUnique(a + 1, q + 1, 0, n);
    }
  }

  lemma {:induction false} ConcatLength(bs: seq<seq<byte>>, k: nat)
    requires forall i :: 0 <= i < |bs| ==> |bs[i]| == k
    ensures |Concat(bs)| == k * |bs|
    decreases |bs|
  {
    if |bs| > 0 {
      ConcatLength(bs[..|bs| - 1], k);
      MulSucc(k, |bs| - 1);
    }
  }

  lemma {:induction false} ConcatAppend(a: seq<seq<byte>>, b: seq<seq<byte>>)
    ensures Concat(a + b) == Concat(a) + Concat(b)
    decreases |b|
  {
    if |b| == 0 {
      assert a + b == a;
    } else {
      var n := |b|;
      assert (a + b)[..|a + b| - 1] == a + b[..n - 1];
      ConcatAppend(a, b[..n - 1]);
    }
  }

  lemma ConcatBlock(bs: seq<seq<byte>>, k: nat, i: nat)
    requires forall j :: 0 <= j < |bs| ==> |bs[j]| == k
    requires i < |bs|
    ensures k * i + k <= |Concat(bs)|
    ensures Concat(bs)[k * i..k * i + k] == bs[i]
  {
    var pre, rest := bs[..i], bs[i + 1..];
    assert bs == pre + ([bs[i]] + rest);
    ConcatAppend(pre, [bs[i]] + rest);
    ConcatAppend([bs[i]], rest);
    assert [bs[i]][..0] == [];
    assert Concat([bs[i]]) == bs[i];
    ConcatLength(pre, k);
    var a := k * i;
    var c := Concat(pre);
    assert |c| == a;
    assert Concat(bs) == c + (bs[i] + Concat(rest));
    assert Concat(bs)[a..a + k] == bs[i];
  }

  /** Blocks of one common size `k` are found again at offsets `k * i`. */
  lemma ConcatUniform(bs: seq<seq<byte>>, k: nat)
    requires forall i :: 0 <= i < |bs| ==> |bs[i]| == k
    ensures |Concat(bs)| == k * |bs|
    ensures forall i :: 0 <= i < |bs| ==> k * i + k <= |Concat(bs)| && Concat(bs)[k * i..k * i + k] == bs[i]
  {
    ConcatLength(bs, k);
    forall i | 0 <= i < |bs|
      ensures k * i + k <= |Concat(bs)| && Concat(bs)[k * i..k * i + k] == bs[i]
    {
      ConcatBlock(bs, k, i);
    }
  }
}
