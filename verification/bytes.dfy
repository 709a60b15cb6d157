/** An optional value, and the outcome of an operation that can throw. */
module Results {
  datatype Option<+T> = None | Some(value: T)

  datatype Error = Disconnected | TooLong | Corrupted | OutOfRoom

  datatype Result<+T> = Ok(value: T) | Err(error: Error)
  {
    predicate IsFailure() { Err? }
    function PropagateFailure<U>(): Result<U>
      requires Err?
    {
      Err(error)
    }
    function Extract(): T
      requires Ok?
    {
      value
    }
  }
}

/**
 Bytes and little-endian integers: the representation that `DataView` reads and writes
 everywhere in the driver, and that the Ed25519 code converts to and from bigints.
 */
module Bytes {

  type byte = b: int | 0 <= b < 0x100

  /** A byte store keeps the low 8 bits, whatever the sign of the number. */
  function Low8(n: int): byte {
    n % 0x100
  }

  /** The number of values of a `k`-byte unsigned integer. */
  function Pow256(k: nat): (p: nat)
    ensures p >= 1
    decreases k
  {
    if k == 0 then 1 else 0x100 * Pow256(k - 1)
  }

  /** The `k` low bytes of `n`, least significant first. */
  function LE(n: nat, k: nat): (s: seq<byte>)
    ensures |s| == k
    decreases k
  {
    if k == 0 then [] else [n % 0x100] + LE(n / 0x100, k - 1)
  }

  function FromLE(s: seq<byte>): (n: nat)
    ensures n < Pow256(|s|)
    decreases |s|
  {
    if s == [] then 0 else s[0] + 0x100 * FromLE(s[1..])
  }

  lemma {:induction false} FromLEofLE(n: nat, k: nat)
    ensures FromLE(LE(n, k)) == n % Pow256(k)
    decreases k
  {
    if k != 0 {
      var p := Pow256(k - 1);
      FromLEofLE(n / 0x100, k - 1);
      assert LE(n, k)[1..] == LE(n / 0x100, k - 1);
      ModSplit(n, p);
    }
  }

  lemma ModSplit(n: nat, p: nat)
    requires p >= 1
    ensures n % (0x100 * p) == n % 0x100 + 0x100 * (n / 0x100 % p)
  {
    var q, r := n / 0x100 / p, n % 0x100 + 0x100 * (n / 0x100 % p);
    assert n / 0x100 == p * q + n / 0x100 % p;
    assert n == (0x100 * p) * q + r by {
      assert 0x100 * (p * q) == (0x100 * p) * q;
    }
    ModUnique(n, 0x100 * p, q, r);
  }

  lemma ConcatAssoc<T>(a: seq<T>, b: seq<T>, c: seq<T>)
    ensures a + (b + c) == (a + b) + c
  {
  }

  lemma SliceSlice<T>(s: seq<T>, a: nat, b: nat, c: nat, d: nat)
    requires a <= b <= |s| && c <= d <= b - a
    ensures s[a..b][c..d] == s[a + c..a + d]
  {
    assert |s[a..b][c..d]| == |s[a + c..a + d]|;
    assert forall i :: 0 <= i < d - c ==> s[a..b][c..d][i] == s[a + c..a + d][i];
  }

  lemma ModUnique(n: int, m: int, q: int, r: int)
    requires m > 0 && 0 <= r < m && n == m * q + r
    ensures n / m == q && n % m == r
  {
    var q', r' := n / m, n % m;
    assert n == m * q' + r';
    if q' < q {
      MulMonotone(m, q' + 1, q);
    } else if q < q' {
      MulMonotone(m, q + 1, q');
    }
  }

  lemma MulMonotone(m: nat, a: int, b: int)
    requires a <= b
    ensures m * a <= m * b
  {
    assert m * b - m * a == m * (b - a);
  }

  lemma {:induction false} LEofFromLE(s: seq<byte>)
    ensures LE(FromLE(s), |s|) == s
    decreases |s|
  {
    if s != [] {
      LEofFromLE(s[1..]);
      var n := FromLE(s);
      assert n % 0x100 == s[0] && n / 0x100 == FromLE(s[1..]);
    }
  }

  /** An integer that fits `k` bytes survives the trip through its bytes. */
  lemma LERoundTrip(n: nat, k: nat)
    requires n < Pow256(k)
    ensures FromLE(LE(n, k)) == n
  {
    FromLEofLE(n, k);
    assert n % Pow256(k) == n by { ModUnique(n, Pow256(k), 0, n); }
  }

  lemma Pow256Values()
    ensures Pow256(1) == 0x100 && Pow256(2) == 0x1_0000 && Pow256(3) == 0x100_0000 && Pow256(4) == 0x1_0000_0000
    ensures Pow256(8) == 0x1_0000_0000_0000_0000
  {
    assert Pow256(2) == 0x100 * Pow256(1);
    assert Pow256(3) == 0x100 * Pow256(2);
    assert Pow256(4) == 0x100 * Pow256(3);
    assert Pow256(5) == 0x100 * Pow256(4);
    assert Pow256(6) == 0x100 * Pow256(5);
    assert Pow256(7) == 0x100 * Pow256(6);
  }

  /** Unrolled little-endian forms, as the source writes them byte by byte. */
  lemma LEUnroll(n: nat)
    ensures LE(n, 1) == [n % 0x100]
    ensures LE(n, 2) == [n % 0x100, n / 0x100 % 0x100]
    ensures LE(n, 3) == [n % 0x100, n / 0x100 % 0x100, n / 0x1_0000 % 0x100]
    ensures LE(n, 4) == [n % 0x100, n / 0x100 % 0x100, n / 0x1_0000 % 0x100, n / 0x100_0000 % 0x100]
  {
    var a, b, c := n / 0x100, n / 0x1_0000, n / 0x100_0000;
    assert a / 0x100 == b && b / 0x100 == c;
    assert LE(c, 1) == [c % 0x100] + LE(c / 0x100, 0);
    assert LE(b, 1) == [b % 0x100] + LE(c, 0);
    assert LE(b, 2) == [b % 0x100] + LE(c, 1);
    assert LE(a, 1) == [a % 0x100] + LE(b, 0);
    assert LE(a, 2) == [a % 0x100] + LE(b, 1);
    assert LE(a, 3) == [a % 0x100] + LE(b, 2);
  }

  lemma FromLEUnroll(s: seq<byte>)
    ensures |s| == 1 ==> FromLE(s) == s[0]
    ensures |s| == 2 ==> FromLE(s) == s[0] as int + 0x100 * s[1] as int
    ensures |s| == 3 ==> FromLE(s) == s[0] as int + 0x100 * s[1] as int + 0x1_0000 * s[2] as int
    ensures |s| == 4 ==>
      FromLE(s) == s[0] as int + 0x100 * s[1] as int + 0x1_0000 * s[2] as int + 0x100_0000 * s[3] as int
  {
    if 1 <= |s| <= 4 {
      var t := s[1..];
      if |t| >= 1 {
        var u := t[1..];
        assert FromLE(t) == t[0] + 0x100 * FromLE(u);
        if |u| >= 1 {
          var v := u[1..];
          assert FromLE(u) == u[0] + 0x100 * FromLE(v);
          if |v| >= 1 {
            assert FromLE(v) == v[0] + 0x100 * FromLE(v[1..]);
          }
        }
      }
    }
  }

  lemma DivDiv(n: nat, a: nat, b: nat)
    requires a >= 1 && b >= 1
    ensures a * b >= 1
    ensures n / a / b == n / (a * b)
  {
    var q := n / a / b;
    var m := n / a % b;
    var r := m * a + n % a;
    assert n / a == b * q + m;
    assert n == a * (n / a) + n % a;
    assert a * (b * q + m) == (a * b) * q + m * a;
    MulMonotone(a, m, b - 1);
    assert m * a == a * m && a * (b - 1) == a * b - a;
    MulMonotone(a, 1, b);
    ModUnique(n, a * b, q, r);
  }
}
