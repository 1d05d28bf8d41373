/** Shared vocabulary of the Vigenere model: bytes, optional values and the
    errors the Python scripts raise, turned into values. */
module Base {

  /** A Python `bytes` element. */
  type Byte = x: int | 0 <= x < 256

  /** `ord(' ')`, the symbol assumed to dominate every slot of the plaintext. */
  const Space: Byte := 32

  /** The `mode` argument selects addition only when it is exactly "encrypt";
      every other string subtracts. */
  predicate IsEncrypt(mode: string) {
    mode == "encrypt"
  }

  datatype Option<+T> = None | Some(value: T)

  /** Each constructor names one place where the scripts raise an exception. */
  datatype Error =
    | EmptyKey        // ValueError raised by vigenere before any output
    | ModuloByZero    // ZeroDivisionError of `i % len(key)` in decrypt
    | SymbolMissing   // KeyError: a key character absent from the code table
    | CodeMissing     // KeyError: a shifted code absent from the reverse table
    | TextInByteMode  // TypeError or ValueError: an empty code table sends text down the byte path
    | NoMostCommon    // IndexError: most_common(1) of an empty slice

  datatype Result<+T> = Success(value: T) | Failure(error: Error)

  /** Adding a multiple of `n` does not change a residue. */
  lemma ModMultiple(x: int, q: int, n: int)
    requires 0 <= x < n
    ensures (x + q * n) % n == x
  {
    var y := x + q * n;
    var d := q - y / n;
    assert y == (y / n) * n + y % n;
    assert d * n == y % n - x;
  }

  /** Shifting a residue in 0 .. n-1 forth and back by `k` modulo `n`
      returns it. */
  lemma ModCancel(x: int, k: int, n: int)
    requires 0 <= x < n
    ensures ((x + k) % n - k) % n == x
    ensures ((x - k) % n + k) % n == x
  {
    assert x + k == ((x + k) / n) * n + (x + k) % n;
    ModMultiple(x, -((x + k) / n), n);
    assert (x + k) % n - k == x + (-((x + k) / n)) * n;
    assert x - k == ((x - k) / n) * n + (x - k) % n;
    ModMultiple(x, -((x - k) / n), n);
    assert (x - k) % n + k == x + (-((x - k) / n)) * n;
  }

  lemma MulNonNegative(a: int, n: int)
    requires a >= 0 && n >= 0
    ensures a * n >= 0
  {
  }

  /** Euclidean division has one quotient: any `q` with a remainder in
      0 .. n-1 is `y / n`. */
  lemma DivUnique(y: int, n: int, q: int, m: int)
    requires n >= 1 && 0 <= m < n && y == q * n + m
    ensures y / n == q
  {
    var q0 := y / n;
    var m0 := y % n;
    assert y == q0 * n + m0 && 0 <= m0 < n;
    var d := q - q0;
    assert d * n == m0 - m by {
      assert q * n - q0 * n == (q - q0) * n;
    }
    if d >= 1 {
      assert d * n == (d - 1) * n + n;
      MulNonNegative(d - 1, n);
    } else if d <= -1 {
      assert -d * n == (-d - 1) * n + n;
      MulNonNegative(-d - 1, n);
    }
  }
}
