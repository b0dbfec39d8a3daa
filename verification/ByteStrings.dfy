/** Byte strings, fixed-width big-endian integers (Go's encoding/binary), minimal big-endian integers
    (Go's math/big Bytes and SetBytes) and bytes.Compare. */
module ByteStrings {
  type byte = x: int | 0 <= x < 256
  type bytes = seq<byte>

  const TWO_TO_THE_16 := 0x1_0000
  const TWO_TO_THE_31 := 0x8000_0000
  const TWO_TO_THE_32 := 0x1_0000_0000
  const TWO_TO_THE_63 := 0x8000_0000_0000_0000
  const TWO_TO_THE_64 := 0x1_0000_0000_0000_0000

  datatype Option<+T> = None | Some(value: T)

  datatype Result<+T, +E> = Success(value: T) | Failure(error: E) {
    predicate IsFailure() { Failure? }

    function PropagateFailure<U>(): Result<U, E>
      requires Failure?
    {
      Failure(error)
    }

    function Extract(): T
      requires Success?
    {
      value
    }

    function Map<U>(f: T -> U): Result<U, E> {
      match this
      case Success(x) => Success(f(x))
      case Failure(e) => Failure(e)
    }
  }

  // ----- big-endian integers

  function Pow256(k: nat): (p: nat)
    ensures p > 0
  {
    if k == 0 then 1 else 256 * Pow256(k - 1)
  }

  function Pow2(k: nat): (p: nat)
    ensures p > 0
  {
    if k == 0 then 1 else 2 * Pow2(k - 1)
  }

  lemma SmallPowers()
    ensures Pow256(1) == 256
    ensures Pow256(2) == TWO_TO_THE_16
    ensures Pow256(4) == TWO_TO_THE_32
    ensures Pow256(8) == TWO_TO_THE_64
    ensures TWO_TO_THE_16 == 65536 && TWO_TO_THE_31 == 2147483648 && TWO_TO_THE_32 == 4294967296
    ensures TWO_TO_THE_63 == 9223372036854775808 && TWO_TO_THE_64 == 18446744073709551616
  {
    assert Pow256(3) == 0x100_0000;
    assert Pow256(4) == TWO_TO_THE_32;
    assert Pow256(5) == 0x100_0000_0000;
    assert Pow256(6) == 0x1_0000_0000_0000;
    assert Pow256(7) == 0x100_0000_0000_0000;
  }

  /** The bytes of a string of ASCII characters. */
  function Ascii(s: string): (b: bytes)
    requires forall i | 0 <= i < |s| :: s[i] as int < 128
    ensures |b| == |s| && forall i | 0 <= i < |s| :: b[i] == s[i] as int
  {
    seq(|s|, i requires 0 <= i < |s| => s[i] as int)
  }

  function FromBE(s: bytes): nat {
    if s == [] then 0 else 256 * FromBE(s[..|s| - 1]) + s[|s| - 1]
  }

  function ToBE(n: nat, width: nat): (s: bytes)
    ensures |s| == width
  {
    if width == 0 then [] else ToBE(n / 256, width - 1) + [n % 256]
  }

  lemma FromBEBound(s: bytes)
    ensures FromBE(s) < Pow256(|s|)
  {
  }

  /** Writing and reading back keeps the low `width` bytes, so it is exact when the number fits. */
  lemma {:induction false} FromToBE(n: nat, width: nat)
    ensures FromBE(ToBE(n, width)) == n % Pow256(width)
  {
    if width > 0 {
      FromToBE(n / 256, width - 1);
      var s := ToBE(n, width);
      assert s[..|s| - 1] == ToBE(n / 256, width - 1);
      ModOfQuotient(n, Pow256(width - 1));
    }
  }

  lemma ModOfQuotient(n: nat, p: nat)
    requires p > 0
    ensures n % (256 * p) == 256 * ((n / 256) % p) + n % 256
  {
    var q, r := n / 256, n % 256;
    var a, b := q / p, q % p;
    assert n == 256 * (p * a + b) + r;
    assert n == (256 * p) * a + (256 * b + r);
    assert 256 * b + r < 256 * p;
    UniqueRemainder(n, 256 * p, a, 256 * b + r);
  }

  lemma MultipleBelow(m: int, d: int, x: int)
    requires m > 0 && m * d == x && -m < x < m
    ensures x == 0
  {
    assert d >= 1 ==> m * d >= m;
    assert d <= -1 ==> m * d <= m * -1;
  }

  lemma UniqueRemainder(n: nat, m: nat, q: nat, r: nat)
    requires m > 0 && r < m && n == m * q + r
    ensures n % m == r
  {
    MultipleBelow(m, n / m - q, r - n % m);
  }

  lemma ModFits(n: nat, m: nat)
    requires m > 0
    ensures n % m == n <==> n < m
  {
    if n < m {
      UniqueRemainder(n, m, 0, n);
    }
  }

  lemma FromToBEExact(n: nat, width: nat)
    requires n < Pow256(width)
    ensures FromBE(ToBE(n, width)) == n
  {
    FromToBE(n, width);
    ModFits(n, Pow256(width));
  }

  lemma {:induction false} ToFromBE(s: bytes)
    ensures ToBE(FromBE(s), |s|) == s
  {
    if s != [] {
      var t := s[..|s| - 1];
      ToFromBE(t);
      assert FromBE(s) / 256 == FromBE(t);
      assert s == t + [s[|s| - 1]];
    }
  }

  /** The minimal big-endian form of a number, with no leading zero byte. */
  function MinBytes(n: nat): bytes {
    if n == 0 then [] else MinBytes(n / 256) + [n % 256]
  }

  lemma {:induction false} FromMinBytes(n: nat)
    ensures FromBE(MinBytes(n)) == n
  {
    if n > 0 {
      FromMinBytes(n / 256);
      var s := MinBytes(n);
      assert s[..|s| - 1] == MinBytes(n / 256);
    }
  }

  lemma {:induction false} MinBytesLength(n: nat, width: nat)
    ensures |MinBytes(n)| <= width <==> n < Pow256(width)
  {
    if n > 0 && width > 0 {
      MinBytesLength(n / 256, width - 1);
    }
  }

  function Zeros(k: nat): (s: bytes)
    ensures |s| == k
  {
    seq(k, _ => 0)
  }

  lemma {:induction false} FromBELeadingZeros(k: nat, s: bytes)
    ensures FromBE(Zeros(k) + s) == FromBE(s)
  {
    var z := Zeros(k) + s;
    if s == [] {
      if k > 0 {
        FromBELeadingZeros(k - 1, []);
        assert z[..|z| - 1] == Zeros(k - 1) + [];
      }
    } else {
      assert z[..|z| - 1] == Zeros(k) + s[..|s| - 1];
      FromBELeadingZeros(k, s[..|s| - 1]);
    }
  }

  /** Dropping leading bytes keeps the number modulo the remaining width. */
  lemma {:induction false} FromBESuffix(s: bytes, k: nat)
    requires k <= |s|
    ensures FromBE(s[|s| - k..]) == FromBE(s) % Pow256(k)
  {
    if k > 0 {
      var t, x := s[..|s| - 1], s[|s| - 1];
      var u := s[|s| - k..];
      assert u[..|u| - 1] == t[|t| - (k - 1)..] && u[|u| - 1] == x;
      FromBESuffix(t, k - 1);
      AppendedMod(FromBE(t), x, Pow256(k - 1));
    }
  }

  lemma AppendedMod(n: nat, x: nat, p: nat)
    requires p > 0 && x < 256
    ensures (256 * n + x) % (256 * p) == 256 * (n % p) + x
  {
    ModOfQuotient(256 * n + x, p);
  }

  // ----- bytes.Compare

  function Compare(a: bytes, b: bytes): (c: int)
    ensures c in {-1, 0, 1}
  {
    if a == [] then (if b == [] then 0 else -1)
    else if b == [] then 1
    else if a[0] < b[0] then -1
    else if a[0] > b[0] then 1
    else Compare(a[1..], b[1..])
  }

  function Sign(x: int): int {
    if x < 0 then -1 else if x == 0 then 0 else 1
  }

  lemma {:induction false} CompareZero(a: bytes, b: bytes)
    ensures Compare(a, b) == 0 <==> a == b
  {
    if a != [] && b != [] && a[0] == b[0] {
      CompareZero(a[1..], b[1..]);
      assert a == [a[0]] + a[1..] && b == [b[0]] + b[1..];
    }
  }

  lemma {:induction false} CompareFlip(a: bytes, b: bytes)
    ensures Compare(a, b) == -Compare(b, a)
  {
    if a != [] && b != [] {
      CompareFlip(a[1..], b[1..]);
    }
  }

  lemma {:induction false} CompareTransitive(a: bytes, b: bytes, c: bytes)
    requires Compare(a, b) == -1 && Compare(b, c) == -1
    ensures Compare(a, c) == -1
  {
    if a != [] && a[0] == b[0] == c[0] {
      CompareTransitive(a[1..], b[1..], c[1..]);
    }
  }

  /** A shared prefix does not matter, and the first strings of equal length decide if they differ. */
  lemma {:induction false} CompareConcat(a: bytes, b: bytes, x: bytes, y: bytes)
    requires |a| == |b|
    ensures Compare(a + x, b + y) == if a == b then Compare(x, y) else Compare(a, b)
  {
    if a == [] {
      assert a + x == x && b + y == y;
    } else {
      assert (a + x)[1..] == a[1..] + x && (b + y)[1..] == b[1..] + y;
      CompareConcat(a[1..], b[1..], x, y);
      assert a == [a[0]] + a[1..] && b == [b[0]] + b[1..];
    }
  }

  /** On numbers that fit, bytewise order of the fixed-width forms is numeric order. */
  lemma {:induction false} CompareToBE(m: nat, n: nat, width: nat)
    requires m < Pow256(width) && n < Pow256(width)
    ensures Compare(ToBE(m, width), ToBE(n, width)) == Sign(m - n)
  {
    if width > 0 {
      CompareToBE(m / 256, n / 256, width - 1);
      CompareConcat(ToBE(m / 256, width - 1), ToBE(n / 256, width - 1), [m % 256], [n % 256]);
      CompareZero(ToBE(m / 256, width - 1), ToBE(n / 256, width - 1));
    }
  }
}
