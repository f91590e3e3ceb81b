/**
 * Little-endian byte strings: `i128::to_le_bytes` / `u128::to_le_bytes`
 * truncated to the low bytes (src/raw.rs:153, 183) and `write_u16::<LittleEndian>`
 * (src/raw.rs:366).
 */
module LittleEndian {

  type Byte = x: int | 0 <= x < 256

  /** Two to the power `n`. */
  function Pow2(n: nat): (r: nat)
    ensures r >= 1
  {
    if n == 0 then 1 else 2 * Pow2(n - 1)
  }

  /**
   * The low `n` bytes of the two's-complement representation of `v`, least
   * significant first. Negative values are represented modulo a power of
   * two, exactly as the low bytes of `to_le_bytes` are.
   */
  function Encode(v: int, n: nat): (bs: seq<Byte>)
    ensures |bs| == n
    decreases n
  {
    if n == 0 then [] else [v % 256] + Encode(v / 256, n - 1)
  }

  /** The unsigned value of a little-endian byte string. */
  function Decode(bs: seq<Byte>): (v: nat)
    ensures v < Pow2(8 * |bs|)
  {
    if bs == [] then 0
    else
      var rest := Decode(bs[1..]);
      Pow2Add(8, 8 * (|bs| - 1));
      assert Pow2(8) == 256;
      assert bs[0] + 256 * rest < 256 * Pow2(8 * (|bs| - 1)) by {
        assert rest + 1 <= Pow2(8 * (|bs| - 1));
      }
      bs[0] + 256 * rest
  }

  lemma {:induction false} Pow2Add(a: nat, b: nat)
    ensures Pow2(a + b) == Pow2(a) * Pow2(b)
  {
    if a > 0 {
      Pow2Add(a - 1, b);
    }
  }

  /** Powers of two grow strictly with the exponent. */
  lemma {:induction false} Pow2Less(a: nat, b: nat)
    requires a < b
    ensures Pow2(a) < Pow2(b)
  {
    if a < b - 1 {
      Pow2Less(a, b - 1);
    }
  }

  lemma MulAtLeast(d: int, x: int)
    requires d > 0 && x >= 1
    ensures d * x >= d
  {
    assert d * x == d + d * (x - 1);
    assert d * (x - 1) >= 0;
  }

  /** If `v == d * q + r` with `0 <= r < d`, Euclidean division of `v` by `d` gives `q` and `r`. */
  lemma DivModUnique(v: int, d: int, q: int, r: int)
    requires d > 0 && 0 <= r < d && v == d * q + r
    ensures v / d == q && v % d == r
  {
    var q', r' := v / d, v % d;
    assert v == d * q' + r' && 0 <= r' < d;
    assert d * (q - q') == r' - r by {
      assert d * (q - q') == d * q - d * q';
    }
    if q > q' {
      MulAtLeast(d, q - q');
    } else if q < q' {
      MulAtLeast(d, q' - q);
    }
  }

  /** Peeling the lowest byte off a residue modulo `256 * m`. */
  lemma ModSplit(v: int, m: nat)
    requires m > 0
    ensures v % (256 * m) == v % 256 + 256 * ((v / 256) % m)
  {
    var q, r := v / 256, v % 256;
    var a, b := q / m, q % m;
    assert v == 256 * q + r;
    assert q == m * a + b;
    assert v == (256 * m) * a + (256 * b + r);
    DivModUnique(v, 256 * m, a, 256 * b + r);
  }

  /** Decoding the encoding gives back the value modulo `2^(8n)`: the bytes are the low `n` bytes of `v`. */
  lemma {:induction false} DecodeEncode(v: int, n: nat)
    ensures Decode(Encode(v, n)) == v % Pow2(8 * n)
    decreases n
  {
    if n > 0 {
      DecodeEncode(v / 256, n - 1);
      Pow2Add(8, 8 * (n - 1));
      assert Pow2(8) == 256;
      assert Encode(v, n)[1..] == Encode(v / 256, n - 1);
      ModSplit(v, Pow2(8 * (n - 1)));
    }
  }

  /** Encoding the decoded value gives back the bytes. */
  lemma {:induction false} EncodeDecode(bs: seq<Byte>)
    ensures Encode(Decode(bs), |bs|) == bs
  {
    if bs != [] {
      var v := Decode(bs);
      var rest := Decode(bs[1..]);
      DivModUnique(v, 256, rest, bs[0]);
      EncodeDecode(bs[1..]);
    }
  }

  /** Two values give the same `n` bytes exactly when they agree modulo `2^(8n)`. */
  lemma SameBytes(v: int, w: int, n: nat)
    ensures Encode(v, n) == Encode(w, n) <==> v % Pow2(8 * n) == w % Pow2(8 * n)
  {
    DecodeEncode(v, n);
    DecodeEncode(w, n);
    if v % Pow2(8 * n) == w % Pow2(8 * n) {
      EncodeDecode(Encode(v, n));
      EncodeDecode(Encode(w, n));
    }
  }
}
