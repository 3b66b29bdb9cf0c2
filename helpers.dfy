/**
  The colour helpers shared by the examples (`examples/helpers.h`): a colour
  is four bytes overlaid on one `uint32_t`, `alpha` scales one alpha by
  another, `blend_channel` mixes one channel, and `blend` draws a source
  colour over a destination colour.
*/
module Helpers {
  import ScanMath

  type Byte = x: int | 0 <= x < 256
  type U32 = x: int | 0 <= x < 0x1_0000_0000

  /** `colour`: the `rgba` bytes of the union. */
  datatype Colour = Colour(r: Byte, g: Byte, b: Byte, a: Byte)

  /** The union's `c` view: the packed struct stores `a, b, g, r` at rising
      addresses, so on a little-endian target `a` is the least significant
      byte of `c`. */
  function Packed(col: Colour): (c: U32)
    ensures c % 256 == col.a && c / 0x100_0000 == col.r
  {
    col.r * 0x100_0000 + col.g * 0x1_0000 + col.b * 0x100 + col.a
  }

  /** The `rgba` view of a `uint32_t` written through `c`. */
  function Unpacked(c: U32): (col: Colour)
    ensures col.a == c % 256 && col.r == c / 0x100_0000
  {
    Colour(c / 0x100_0000, (c / 0x1_0000) % 256, (c / 0x100) % 256, c % 256)
  }

  /** Writing the bytes and reading the word back loses nothing. */
  lemma UnpackPacked(col: Colour)
    ensures Unpacked(Packed(col)) == col
  {
    var p := Packed(col);
    var lo := col.g * 0x1_0000 + col.b * 0x100 + col.a;
    ScanMath.DivModUnique(col.r, 0x100_0000, lo);
    var mid := col.b * 0x100 + col.a;
    ScanMath.DivModUnique(col.r * 0x100 + col.g, 0x1_0000, mid);
    assert p == (col.r * 0x100 + col.g) * 0x1_0000 + mid;
    ScanMath.DivModUnique(col.g, 0x100, col.r);
    assert (col.r * 0x100 + col.g) % 256 == col.g by {
      ScanMath.DivModUnique(col.r, 0x100, col.g);
    }
    ScanMath.DivModUnique(col.r * 0x1_0000 + col.g * 0x100 + col.b, 0x100, col.a);
    assert p == (col.r * 0x1_0000 + col.g * 0x100 + col.b) * 0x100 + col.a;
    ScanMath.DivModUnique(col.r * 0x100 + col.g, 0x100, col.b);
  }

  /** Writing the word and reading the bytes back loses nothing. */
  lemma PackUnpacked(c: U32)
    ensures Packed(Unpacked(c)) == c
  {
    var c1 := c / 0x100;
    var c2 := c1 / 0x100;
    assert c / 0x1_0000 == c2 by {
      DivDiv(c, 0x100, 0x100);
    }
    assert c / 0x100_0000 == c2 / 0x100 by {
      DivDiv(c, 0x1_0000, 0x100);
    }
    assert c == c1 * 0x100 + c % 0x100;
    assert c1 == c2 * 0x100 + c1 % 0x100;
    assert c2 == (c2 / 0x100) * 0x100 + c2 % 0x100;
  }

  lemma DivDiv(x: nat, m: nat, n: nat)
    requires 0 < m && 0 < n
    ensures x / m / n == x / (m * n)
  {
    var q := x / m / n;
    var r := x / m % n;
    assert x / m == q * n + r;
    assert x == (q * n + r) * m + x % m;
    assert x == q * (m * n) + (r * m + x % m);
    assert r * m + x % m < m * n by {
      MulMono(m, r, n - 1);
    }
    ScanMath.DivModUnique(q, m * n, r * m + x % m);
  }

  /** `alpha(sa, da)`: `(sa * (da + 1)) >> 8` in 32-bit unsigned arithmetic. */
  function Alpha(sa: U32, da: U32): (r: U32)
    ensures r < 0x100_0000
  {
    ((sa * ((da + 1) % 0x1_0000_0000)) % 0x1_0000_0000) / 256
  }

  /** Scaling by an opaque destination keeps the source alpha. */
  lemma AlphaOpaque(sa: Byte)
    ensures Alpha(sa, 255) == sa
  {
  }

  /** A transparent source stays transparent. */
  lemma AlphaTransparent(da: Byte)
    ensures Alpha(0, da) == 0
  {
  }

  /** For byte inputs the product never wraps, and the result never exceeds
      the source alpha. */
  lemma AlphaAtMost(sa: Byte, da: Byte)
    ensures Alpha(sa, da) <= sa
    ensures Alpha(sa, da) == sa * (da + 1) / 256
  {
    assert 0 <= sa * (da + 1) <= sa * 256 by {
      MulMono(sa, da + 1, 256);
    }
  }

  lemma MulMono(x: nat, y: nat, z: nat)
    requires y <= z
    ensures x * y <= x * z
  {
  }

  /** `blend_channel(s, d, a)`: `d + ((a * (s - d) + 127) >> 8)`, the
      operands promoted to `int` (so `s - d` may be negative, and `>>` on a
      negative value is taken as an arithmetic shift, i.e. floor division)
      and the sum truncated to `uint8_t`. */
  function BlendChannel(s: Byte, d: Byte, a: Byte): (r: Byte)
  {
    (d + (a * (s - d) + 127) / 256) % 256
  }

  /** With alpha 0 the destination channel is kept. */
  lemma BlendChannelZero(s: Byte, d: Byte)
    ensures BlendChannel(s, d, 0) == d
  {
  }

  /** The blended channel lies between source and destination, so the
      truncation to `uint8_t` never wraps. */
  lemma BlendChannelBetween(s: Byte, d: Byte, a: Byte)
    ensures s <= d ==> s <= BlendChannel(s, d, a) <= d
    ensures d <= s ==> d <= BlendChannel(s, d, a) <= s
  {
    var q := (a * (s - d) + 127) / 256;
    if s >= d {
      var k := s - d;
      MulMono(a, 0, k);
      MulMono(k, a, 255);
      assert 0 <= a * k <= 255 * k;
      assert 0 <= q <= k;
    } else {
      var k := d - s;
      MulMono(k, a, 255);
      assert a * (s - d) == -(a * k);
      assert -(255 * k) <= a * (s - d) <= 0;
      assert -k <= q <= 0;
    }
    assert BlendChannel(s, d, a) == d + q;
  }

  /** `blend(dest, src)`: `src` drawn over `dest` with the source's alpha. */
  function Blend(dest: Colour, src: Colour): (res: Colour)
  {
    if src.a == 0 then dest
    else if src.a == 255 then src
    else Colour(BlendChannel(src.r, dest.r, src.a),
                BlendChannel(src.g, dest.g, src.a),
                BlendChannel(src.b, dest.b, src.a),
                if dest.a > src.a then dest.a else src.a)
  }

  /** A fully transparent source leaves the destination unchanged; a fully
      opaque one replaces it. */
  lemma BlendExtremes(dest: Colour, src: Colour)
    ensures src.a == 0 ==> Blend(dest, src) == dest
    ensures src.a == 255 ==> Blend(dest, src) == src
  {
  }

  /** Every channel of a blend lies between the source's and the
      destination's; a partly transparent source leaves the more opaque
      of the two alphas. */
  lemma BlendBetween(dest: Colour, src: Colour)
    ensures Between(Blend(dest, src).r, src.r, dest.r)
    ensures Between(Blend(dest, src).g, src.g, dest.g)
    ensures Between(Blend(dest, src).b, src.b, dest.b)
    ensures 0 < src.a < 255 ==> Blend(dest, src).a == if dest.a > src.a then dest.a else src.a
    ensures Blend(dest, src).a >= src.a || src.a == 0
  {
    BlendChannelBetween(src.r, dest.r, src.a);
    BlendChannelBetween(src.g, dest.g, src.a);
    BlendChannelBetween(src.b, dest.b, src.a);
  }

  predicate Between(v: int, x: int, y: int)
  {
    (x <= v <= y) || (y <= v <= x)
  }

  /** Blending a colour over itself changes nothing. */
  lemma BlendSelf(c: Colour)
    ensures Blend(c, c) == c
  {
    assert BlendChannel(c.r, c.r, c.a) == c.r;
    assert BlendChannel(c.g, c.g, c.a) == c.g;
    assert BlendChannel(c.b, c.b, c.a) == c.b;
  }

  /** `create_colour(r, g, b, a)`: the fields set, seen as the packed word. */
  function CreateColour(r: Byte, g: Byte, b: Byte, a: Byte): (col: Colour)
    ensures Packed(col) == r * 0x100_0000 + g * 0x1_0000 + b * 0x100 + a
    ensures col.r == r && col.g == g && col.b == b && col.a == a
  {
    Colour(r, g, b, a)
  }
}
