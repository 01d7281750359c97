/** PHP byte strings as seen by the ObjectId code: the big-endian integer
    packing of `pack('N', ...)` / `unpack('N', ...)` and the byte-wise order
    of the string comparison operator `<=>`. */
module Bytes {

  /** One byte of a PHP string, as an unsigned value. */
  type Byte = b: int | 0 <= b < 256

  /** 256 to the power `n`: the number of distinct `n`-byte strings. */
  function Pow256(n: nat): (r: nat)
    ensures r > 0
  {
    if n == 0 then 1 else 256 * Pow256(n - 1)
  }

  /** The low `n` bytes of `v`, most significant byte first.  Dafny's `/`
      and `%` are Euclidean, so a negative `v` comes out in two's
      complement, which is what `pack` does with PHP's 64-bit integers. */
  function Pack(v: int, n: nat): (r: seq<Byte>)
    ensures |r| == n
    decreases n
  {
    if n == 0 then [] else Pack(v / 256, n - 1) + [v % 256]
  }

  /** The unsigned big-endian value of a byte string. */
  function Unpack(b: seq<Byte>): (r: nat)
    ensures r < Pow256(|b|)
  {
    if b == [] then 0 else Unpack(b[..|b| - 1]) * 256 + b[|b| - 1]
  }

  /** `pack('N', v)`: four bytes, big-endian. */
  function PackN(v: int): (r: seq<Byte>)
    ensures |r| == 4
  {
    Pack(v, 4)
  }

  lemma Pow256Widths()
    ensures Pow256(3) == 0x100_0000
    ensures Pow256(4) == 0x1_0000_0000
  {
  }

  /** Euclidean division has exactly one quotient and remainder. */
  lemma DivModUnique(v: int, m: int, a: int, s: int)
    requires m > 0 && v == m * a + s && 0 <= s < m
    ensures v / m == a && v % m == s
  {
    var q, r := v / m, v % m;
    if q < a {
      assert m * (a - q) >= m by { MulAtLeast(m, a - q); }
    } else if q > a {
      assert m * (q - a) >= m by { MulAtLeast(m, q - a); }
    }
  }

  /** A number already below the modulus is its own remainder. */
  lemma SmallMod(x: int, m: int)
    requires m > 0
    ensures 0 <= x < m ==> x % m == x
  {
    if 0 <= x < m {
      DivModUnique(x, m, 0, x);
    }
  }

  lemma MulAtLeast(m: int, k: int)
    requires m > 0 && k >= 1
    ensures m * k >= m
  {
  }

  /** Reducing modulo 256 * p splits into the low byte and the rest. */
  lemma ModSplit(v: int, p: int)
    requires p > 0
    ensures v % (256 * p) == (v / 256) % p * 256 + v % 256
  {
    var q, r := v / 256, v % 256;
    var a, s := q / p, q % p;
    assert v == 256 * q + r;
    assert q == p * a + s;
    assert v == (256 * p) * a + (s * 256 + r);
    DivModUnique(v, 256 * p, a, s * 256 + r);
  }

  /** Unpacking what `Pack` produced gives back `v` reduced to `n` bytes. */
  lemma {:induction false} UnpackPack(v: int, n: nat)
    ensures Unpack(Pack(v, n)) == v % Pow256(n)
    decreases n
  {
    if n > 0 {
      var b := Pack(v, n);
      assert b[..n - 1] == Pack(v / 256, n - 1);
      UnpackPack(v / 256, n - 1);
      ModSplit(v, Pow256(n - 1));
    }
  }

  /** Packing the value of a byte string rebuilds that string. */
  lemma {:induction false} PackUnpack(b: seq<Byte>)
    ensures Pack(Unpack(b), |b|) == b
  {
    if b != [] {
      var n := |b|;
      var u := Unpack(b[..n - 1]);
      assert Unpack(b) == u * 256 + b[n - 1];
      assert Unpack(b) / 256 == u && Unpack(b) % 256 == b[n - 1];
      PackUnpack(b[..n - 1]);
      assert b == b[..n - 1] + [b[n - 1]];
    }
  }

  /** Two values in range pack to the same bytes only if they are equal. */
  lemma PackInjective(v: int, w: int, n: nat)
    requires 0 <= v < Pow256(n) && 0 <= w < Pow256(n)
    requires Pack(v, n) == Pack(w, n)
    ensures v == w
  {
    UnpackPack(v, n);
    UnpackPack(w, n);
  }

  /** Dropping the leading byte of an (n+1)-byte packing leaves the n-byte
      packing: `substr(pack('N', c), 1, 3)` is the low three bytes of `c`. */
  lemma {:induction false} PackDropTop(v: int, n: nat)
    ensures Pack(v, n + 1)[1..] == Pack(v, n)
    decreases n
  {
    if n > 0 {
      PackDropTop(v / 256, n - 1);
      assert Pack(v, n + 1)[1..] == Pack(v / 256, n)[1..] + [v % 256];
    }
  }

  /** `a <=> b` on two PHP strings that are not both numeric: the first
      differing byte decides, as unsigned values; a proper prefix is smaller. */
  function Compare(a: seq<Byte>, b: seq<Byte>): (r: int)
    ensures -1 <= r <= 1
  {
    if a == [] then (if b == [] then 0 else -1)
    else if b == [] then 1
    else if a[0] < b[0] then -1
    else if a[0] > b[0] then 1
    else Compare(a[1..], b[1..])
  }

  /** `a` is below `b` at position `k`: they agree before `k`, and there `a`
      has ended while `b` has not, or `a` holds the smaller byte. */
  ghost predicate LessAt(a: seq<Byte>, b: seq<Byte>, k: nat)
  {
    k <= |a| && k < |b| && a[..k] == b[..k] && (k == |a| || a[k] < b[k])
  }

  lemma {:induction false} CompareZeroIffEqual(a: seq<Byte>, b: seq<Byte>)
    ensures Compare(a, b) == 0 <==> a == b
  {
    if a != [] && b != [] && a[0] == b[0] {
      CompareZeroIffEqual(a[1..], b[1..]);
      assert a == [a[0]] + a[1..] && b == [b[0]] + b[1..];
    }
  }

  lemma {:induction false} CompareAntisymmetric(a: seq<Byte>, b: seq<Byte>)
    ensures Compare(b, a) == -Compare(a, b)
  {
    if a != [] && b != [] && a[0] == b[0] {
      CompareAntisymmetric(a[1..], b[1..]);
    }
  }

  lemma {:induction false} CompareTransitive(a: seq<Byte>, b: seq<Byte>, c: seq<Byte>)
    requires Compare(a, b) == -1 && Compare(b, c) == -1
    ensures Compare(a, c) == -1
  {
    if a != [] && b != [] && c != [] && a[0] == b[0] && b[0] == c[0] {
      CompareTransitive(a[1..], b[1..], c[1..]);
    }
  }

  /** `Compare` says -1 exactly when some position shows `a` below `b`. */
  lemma {:induction false} CompareIsLexicographic(a: seq<Byte>, b: seq<Byte>)
    ensures Compare(a, b) == -1 <==> exists k :: LessAt(a, b, k)
  {
    if Compare(a, b) == -1 {
      var k := LessWitness(a, b);
      assert LessAt(a, b, k);
    }
    if exists k :: LessAt(a, b, k) {
      var k :| LessAt(a, b, k);
      LessAtCompare(a, b, k);
    }
  }

  lemma {:induction false} LessWitness(a: seq<Byte>, b: seq<Byte>) returns (k: nat)
    requires Compare(a, b) == -1
    ensures LessAt(a, b, k)
  {
    if a == [] || a[0] < b[0] {
      k := 0;
    } else {
      var j := LessWitness(a[1..], b[1..]);
      k := j + 1;
      assert a[..k] == [a[0]] + a[1..][..j];
      assert b[..k] == [b[0]] + b[1..][..j];
    }
  }

  lemma {:induction false} LessAtCompare(a: seq<Byte>, b: seq<Byte>, k: nat)
    requires LessAt(a, b, k)
    ensures Compare(a, b) == -1
  {
    if k > 0 {
      assert a[0] == a[..k][0] == b[..k][0] == b[0];
      assert a[1..][..k - 1] == a[..k][1..];
      assert b[1..][..k - 1] == b[..k][1..];
      LessAtCompare(a[1..], b[1..], k - 1);
    }
  }
}
