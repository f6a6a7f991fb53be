/**
 * Little-endian byte images of unsigned integers, as `memcpy` of
 * `fast_io::little_endian(v)` lays them out in linear memory and how the
 * interpreter lays them on its byte operand stack (the model fixes a
 * little-endian host).
 */
module LeBytes {
  import opened Arith

  /** The low `n` bytes of `v`, least significant first. */
  function Encode(n: nat, v: nat): (bs: seq<byte>)
    ensures |bs| == n
  {
    if n == 0 then [] else [(v % 256) as byte] + Encode(n - 1, v / 256)
  }

  /** The unsigned value of a little-endian image. */
  function Decode(bs: seq<byte>): (v: nat)
    ensures v < Pow2(8 * |bs|)
  {
    if |bs| == 0 then 0
    else
      var rest := Decode(bs[1..]);
      Pow256(|bs| - 1);
      bs[0] as nat + 256 * rest
  }

  /** One more byte multiplies the range by 256. */
  lemma Pow256(k: nat)
    ensures Pow2(8 * (k + 1)) == 256 * Pow2(8 * k)
  {
    Pow2Add(8, 8 * k);
    assert Pow2(8) == 256;
  }

  /** The image of `v` holds `v` modulo 2^(8n). */
  lemma {:induction false} DecodeEncode(n: nat, v: nat)
    ensures Decode(Encode(n, v)) == v % Pow2(8 * n)
  {
    if n == 0 {
      DivModUnique(v, 1, v, 0);
    } else {
      var bs := Encode(n, v);
      assert bs[1..] == Encode(n - 1, v / 256);
      ByteRoundTrip(v % 256);
      assert Decode(bs) == v % 256 + 256 * Decode(Encode(n - 1, v / 256));
      DecodeEncode(n - 1, v / 256);
      Pow256(n - 1);
      ModByteStep(v, Pow2(8 * (n - 1)));
    }
  }

  lemma ByteRoundTrip(b: nat)
    requires b < 256
    ensures (b as byte) as nat == b
  {
  }

  /** Splitting off the low byte of a residue modulo 256*p. */
  lemma ModByteStep(v: nat, p: nat)
    requires p > 0
    ensures v % (256 * p) == v % 256 + 256 * ((v / 256) % p)
  {
    var hi := v / 256;
    var q, r := hi / p, hi % p;
    assert hi == q * p + r;
    assert v == hi * 256 + v % 256;
    assert v == q * (256 * p) + (v % 256 + 256 * r);
    DivModUnique(v, 256 * p, q, v % 256 + 256 * r);
  }

  /** Re-encoding a decoded image gives the image back. */
  lemma {:induction false} EncodeDecode(bs: seq<byte>)
    ensures Encode(|bs|, Decode(bs)) == bs
  {
    if |bs| > 0 {
      var v := Decode(bs);
      var rest := Decode(bs[1..]);
      assert v == rest * 256 + bs[0] as nat;
      DivModUnique(v, 256, rest, bs[0] as nat);
      EncodeDecode(bs[1..]);
    }
  }

  /** Two values with the same residue modulo 2^(8n) have the same image. */
  lemma EncodeMod(n: nat, v: nat)
    ensures Encode(n, v) == Encode(n, v % Pow2(8 * n))
  {
    DecodeEncode(n, v);
    EncodeDecode(Encode(n, v));
  }

  /** The first k bytes of an image are the k-byte image (a truncating store). */
  lemma {:induction false} EncodePrefix(k: nat, n: nat, v: nat)
    requires k <= n
    ensures Encode(n, v)[..k] == Encode(k, v)
  {
    if k > 0 {
      EncodePrefix(k - 1, n - 1, v / 256);
      assert Encode(n, v)[..k] == [(v % 256) as byte] + Encode(n - 1, v / 256)[..k - 1];
    }
  }

  /** An image that fits in fewer bytes decodes the same after truncation. */
  lemma DecodePrefix(k: nat, n: nat, v: nat)
    requires k <= n
    ensures Decode(Encode(n, v)[..k]) == v % Pow2(8 * k)
  {
    EncodePrefix(k, n, v);
    DecodeEncode(k, v);
  }

  /** The signed value of a non-empty image (sign bit = top bit of the last byte). */
  function DecodeSigned(bs: seq<byte>): (s: int)
    requires |bs| > 0
    ensures -(Pow2(8 * |bs| - 1) as int) <= s < Pow2(8 * |bs| - 1)
    ensures s < 0 <==> Decode(bs) >= Pow2(8 * |bs| - 1)
    ensures s == Decode(bs) || s == Decode(bs) - Pow2(8 * |bs|)
  {
    var u := Decode(bs);
    var h := Pow2(8 * |bs| - 1);
    assert Pow2(8 * |bs|) == 2 * h;
    if u < h then u else u - 2 * h
  }
}
