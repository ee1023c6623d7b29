/** Unsigned integers on the wire: a fixed number of bytes, most significant first (section 4.4 of RFC 5246). */
module BigEndian {
  import opened TreeHashing

  function Pow256(k: nat): (p: nat)
    ensures p > 0
  {
    if k == 0 then 1 else 256 * Pow256(k - 1)
  }

  function ToBytes(n: nat, k: nat): (b: Bytes)
    requires n < Pow256(k)
    ensures |b| == k
  {
    if k == 0 then [] else ToBytes(n / 256, k - 1) + [(n % 256) as byte]
  }

  function FromBytes(b: Bytes): nat {
    if b == [] then 0 else FromBytes(b[..|b| - 1]) * 256 + b[|b| - 1] as nat
  }

  /** Reading undoes writing. */
  lemma {:induction false} FromTo(n: nat, k: nat)
    requires n < Pow256(k)
    ensures FromBytes(ToBytes(n, k)) == n
  {
    if k > 0 {
      var b := ToBytes(n, k);
      FromTo(n / 256, k - 1);
      assert b[..|b| - 1] == ToBytes(n / 256, k - 1);
    }
  }

  /** Writing undoes reading. */
  lemma {:induction false} ToFrom(b: Bytes)
    ensures FromBytes(b) < Pow256(|b|) && ToBytes(FromBytes(b), |b|) == b
  {
    if b != [] {
      ToFrom(b[..|b| - 1]);
      assert FromBytes(b) / 256 == FromBytes(b[..|b| - 1]) && FromBytes(b) % 256 == b[|b| - 1] as nat;
      assert b == b[..|b| - 1] + [b[|b| - 1]];
    }
  }

  /** Some bytes are those of a number exactly when that number is read from them. */
  lemma NumberIs(b: Bytes, n: nat, k: nat)
    ensures |b| == k && FromBytes(b) == n <==> n < Pow256(k) && b == ToBytes(n, k)
  {
    ToFrom(b);
    if n < Pow256(k) {
      FromTo(n, k);
    }
  }

  /** Byte i of k is worth 256 to the k - 1 - i. */
  lemma {:induction false} ByteAt(n: nat, k: nat, i: nat)
    requires n < Pow256(k) && i < k
    ensures ToBytes(n, k)[i] == (n / Pow256(k - 1 - i) % 256) as byte
  {
    if i < k - 1 {
      ByteAt(n / 256, k - 1, i);
      DivideTwice(n, Pow256(k - 2 - i));
    }
  }

  lemma DivideTwice(n: nat, p: nat)
    requires p > 0
    ensures n / 256 / p == n / (256 * p)
  {
    var q := n / 256;
    var a, r := q / p, q % p;
    assert q == a * p + r;
    assert n == a * (256 * p) + (256 * r + n % 256);
    assert 0 <= 256 * r + n % 256 < 256 * p;
    QuotientIs(n, 256 * p, a, 256 * r + n % 256);
  }

  lemma QuotientIs(n: nat, d: nat, a: nat, r: nat)
    requires d > 0 && r < d && n == a * d + r
    ensures n / d == a
  {
    Between(n, d, a, r, n / d, n % d);
  }

  lemma Between(n: nat, d: nat, a: nat, r: nat, b: nat, s: nat)
    requires d > 0 && r < d && s < d && n == a * d + r && n == d * b + s
    ensures a == b
  {
    if a < b {
      Times(a + 1, b, d);
    } else if b < a {
      Times(b + 1, a, d);
    }
  }

  lemma Times(x: nat, y: nat, d: nat)
    requires x <= y
    ensures x * d <= y * d && x * d == d * x
  {
    assert (y - x) * d >= 0;
  }

  /** The number of bytes that hold every value up to a maximum. */
  function BytesFor(max: nat): nat {
    if max == 0 then 0 else 1 + BytesFor(max / 256)
  }

  lemma {:induction false} BytesForHolds(max: nat, n: nat)
    requires n <= max
    ensures n < Pow256(BytesFor(max))
  {
    if max > 0 {
      BytesForHolds(max / 256, n / 256);
    }
  }

  /** And no smaller number of bytes does. */
  lemma {:induction false} BytesForLeast(max: nat, k: nat)
    requires max < Pow256(k)
    ensures BytesFor(max) <= k
  {
    if max > 0 && k > 0 {
      BytesForLeast(max / 256, k - 1);
    }
  }
}
