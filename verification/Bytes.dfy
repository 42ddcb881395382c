/** Object representations: bytes, little-endian words and the flat memory image of an array. */
module Bytes {
  import opened Flat

  type byte = b: int | 0 <= b < 256

  function Pow256(k: nat): (p: nat)
    ensures p > 0
  {
    if k == 0 then 1 else 256 * Pow256(k - 1)
  }

  /** The k low-order bytes of n, least significant first. */
  function ToBytes(n: nat, k: nat): (s: seq<byte>)
    ensures |s| == k
  {
    if k == 0 then [] else [n % 256] + ToBytes(n / 256, k - 1)
  }

  function FromBytes(s: seq<byte>): (n: nat)
    ensures n < Pow256(|s|)
  {
    if s == [] then 0 else s[0] + 256 * FromBytes(s[1..])
  }

  lemma {:induction false} FromToBytes(n: nat, k: nat)
    requires n < Pow256(k)
    ensures FromBytes(ToBytes(n, k)) == n
  {
    if k > 0 {
      FromToBytes(n / 256, k - 1);
      assert ToBytes(n, k)[1..] == ToBytes(n / 256, k - 1);
    }
  }

  /** Byte i counts 256 to the power i. */
  lemma {:induction false} LittleEndian(n: nat, k: nat, i: nat)
    requires i < k
    ensures ToBytes(n, k)[i] == n / Pow256(i) % 256
  {
    if i > 0 {
      LittleEndian(n / 256, k - 1, i - 1);
      DivideTwice(n, Pow256(i - 1));
    }
  }

  lemma DivideTwice(n: nat, p: nat)
    requires p > 0
    ensures n / 256 / p == n / (256 * p)
  {
    var q, r := n / 256 / p, n / 256 % p;
    assert n / 256 == q * p + r;
    var low := 256 * r + n % 256;
    assert n == q * (256 * p) + low && low < 256 * p;
    QuotientIs(n, 256 * p, q, low);
  }

  lemma QuotientIs(n: nat, d: nat, q: nat, r: nat)
    requires r < d && n == q * d + r
    ensures n / d == q
  {
    var p := n / d;
    assert n == p * d + n % d;
    if p < q {
      MulMonotone(p, q, d);
    } else if q < p {
      MulMonotone(q, p, d);
    }
  }

  lemma {:induction false} ToFromBytes(s: seq<byte>)
    ensures ToBytes(FromBytes(s), |s|) == s
  {
    if s != [] {
      ToFromBytes(s[1..]);
      LowByte(s[0], FromBytes(s[1..]));
      assert s == [s[0]] + s[1..];
    }
  }

  lemma LowByte(low: byte, high: nat)
    ensures (low + 256 * high) % 256 == low && (low + 256 * high) / 256 == high
  {
  }

  /** The contiguous image of an array whose elements have the given images. */
  function Flatten(images: seq<seq<byte>>): (s: seq<byte>)
  {
    if images == [] then [] else images[0] + Flatten(images[1..])
  }

  /** Cuts a memory image back into elements of the given width. */
  function Chop(s: seq<byte>, width: nat, count: nat): (images: seq<seq<byte>>)
    requires |s| == width * count
    ensures |images| == count
  {
    if count == 0 then [] else
    assert width * count == width + width * (count - 1);
    [s[..width]] + Chop(s[width..], width, count - 1)
  }

  predicate AllWide(images: seq<seq<byte>>, width: nat) {
    forall k :: 0 <= k < |images| ==> |images[k]| == width
  }

  lemma {:induction false} FlattenLength(images: seq<seq<byte>>, width: nat)
    requires AllWide(images, width)
    ensures |Flatten(images)| == width * |images|
  {
    if images != [] {
      FlattenLength(images[1..], width);
      assert width * |images| == width + width * (|images| - 1);
    }
  }

  lemma {:induction false} ChopFlatten(images: seq<seq<byte>>, width: nat)
    requires AllWide(images, width)
    requires |Flatten(images)| == width * |images|
    ensures Chop(Flatten(images), width, |images|) == images
  {
    if images != [] {
      FlattenLength(images[1..], width);
      assert Flatten(images)[..width] == images[0];
      assert Flatten(images)[width..] == Flatten(images[1..]);
      ChopFlatten(images[1..], width);
      assert width * |images| == width + width * (|images| - 1);
    }
  }

  lemma {:induction false} FlattenConcat(a: seq<seq<byte>>, b: seq<seq<byte>>)
    ensures Flatten(a + b) == Flatten(a) + Flatten(b)
  {
    if a == [] {
      assert a + b == b;
    } else {
      assert (a + b)[1..] == a[1..] + b;
      FlattenConcat(a[1..], b);
    }
  }

  /** The image of an array holds element i at i times the width. */
  lemma {:induction false} FlattenAt(images: seq<seq<byte>>, width: nat, i: nat)
    requires AllWide(images, width) && i < |images|
    ensures |Flatten(images)| == width * |images| && width * i + width <= width * |images|
    ensures Flatten(images)[width * i..width * i + width] == images[i]
  {
    FlattenLength(images, width);
    MulMonotone(i, |images|, width);
    if i > 0 {
      FlattenAt(images[1..], width, i - 1);
      assert width * i == width + width * (i - 1);
      SliceBehind(images[0], Flatten(images[1..]), width * (i - 1), width);
    }
  }

  lemma SliceBehind(front: seq<byte>, back: seq<byte>, at: nat, n: nat)
    requires at + n <= |back|
    ensures (front + back)[|front| + at..|front| + at + n] == back[at..at + n]
  {
  }
}
