/**
 The index arithmetic of the ring: a slot number is advanced or moved back by one
 and masked with 2^mask - 1, on 32-bit machine words.
 */
module IndexArithmetic {

  const WORD: nat := 0x1_0000_0000

  function Pow2(k: nat): (p: nat)
    ensures p > 0
  {
    if k == 0 then 1 else 2 * Pow2(k - 1)
  }

  /** The 32-bit word that stores a C value of type int or unsigned int. */
  function Word(v: int): nat {
    v % WORD
  }

  /** The bitwise "and" of two non-negative numbers, bit by bit. */
  function BitAnd(a: nat, b: nat): nat {
    if a == 0 || b == 0 then 0
    else (if a % 2 == 1 && b % 2 == 1 then 1 else 0) + 2 * BitAnd(a / 2, b / 2)
  }

  /** The ring successor and predecessor, as the rest of the model reads them. */
  function Inc(i: nat, n: nat): nat {
    if i + 1 == n then 0 else i + 1
  }

  function Dec(i: nat, n: nat): nat
    requires n > 0
  {
    if i == 0 then n - 1 else i - 1
  }

  function CircularIncrement(value: nat, mask: nat): (r: nat)
    requires mask <= 30
    ensures value < Pow2(mask) ==> r == Inc(value, Pow2(mask))
  {
    MaskedIncrement(value, mask);
    BitAnd(Word(value + 1), Pow2(mask) - 1)
  }

  function CircularDecrement(value: int, mask: nat): (r: nat)
    requires mask <= 30
    ensures 0 <= value < Pow2(mask) ==> r == Dec(value, Pow2(mask))
  {
    MaskedDecrement(value, mask);
    BitAnd(Word(value - 1), Pow2(mask) - 1)
  }

  /** Both operations are exact modulo the ring size, in range or not. */
  lemma IncrementIsModular(value: nat, mask: nat)
    requires mask <= 30
    ensures CircularIncrement(value, mask) == (value + 1) % Pow2(mask)
  {
    WordMask(value + 1, mask);
  }

  lemma DecrementIsModular(value: int, mask: nat)
    requires mask <= 30
    ensures CircularDecrement(value, mask) == (value - 1) % Pow2(mask)
  {
    WordMask(value - 1, mask);
  }

  /** Decrement undoes increment, and increment undoes decrement, modulo the ring
      size and for every starting value. */
  lemma DecrementUndoesIncrement(value: nat, mask: nat)
    requires mask <= 30
    ensures CircularDecrement(CircularIncrement(value, mask), mask) == value % Pow2(mask)
  {
    hide CircularIncrement, CircularDecrement, BitAnd, Pow2;
    var n, x := Pow2(mask), CircularIncrement(value, mask);
    IncrementIsModular(value, mask);
    DecrementIsModular(x, mask);
    ModShift(value + 1, -1, n);
    assert value + 1 + -1 == value;
  }

  lemma IncrementUndoesDecrement(value: int, mask: nat)
    requires mask <= 30
    ensures CircularIncrement(CircularDecrement(value, mask), mask) == value % Pow2(mask)
  {
    hide CircularIncrement, CircularDecrement, BitAnd, Pow2;
    var n, x := Pow2(mask), CircularDecrement(value, mask);
    DecrementIsModular(value, mask);
    IncrementIsModular(x, mask);
    ModShift(value - 1, 1, n);
    assert value - 1 + 1 == value;
  }

  /** Masking a machine word with 2^k - 1 is reduction modulo 2^k, for every k that
      fits and every C value, negative ones included. */
  lemma WordMask(v: int, k: nat)
    requires k <= 30
    ensures BitAnd(Word(v), Pow2(k) - 1) == v % Pow2(k)
  {
    MaskIsMod(Word(v), k);
    WordIsPow2();
    ModOfMod(v, k, 32);
  }

  lemma {:induction false} MaskIsMod(v: nat, k: nat)
    ensures BitAnd(v, Pow2(k) - 1) == v % Pow2(k)
  {
    if v == 0 {
      ModUnique(0, Pow2(k), 0, 0);
    } else if k == 0 {
      ModUnique(v, 1, v, 0);
    } else {
      var p := Pow2(k - 1);
      MaskIsMod(v / 2, k - 1);
      AndWithOdd(v, p - 1);
      ModOfDouble(v, p);
    }
  }

  lemma AndWithOdd(v: nat, m: nat)
    ensures BitAnd(v, 2 * m + 1) == v % 2 + 2 * BitAnd(v / 2, m)
  {
    assert (2 * m + 1) / 2 == m && (2 * m + 1) % 2 == 1;
  }

  lemma ModOfDouble(v: nat, p: nat)
    requires p > 0
    ensures v % (2 * p) == v % 2 + 2 * ((v / 2) % p)
  {
    var q, r := DivMod(v / 2, p);
    Swap(q, p);
    ModUnique(v, 2 * p, q, 2 * r + v % 2);
  }

  lemma MaskedIncrement(v: nat, k: nat)
    requires k <= 30
    ensures v < Pow2(k) ==> BitAnd(Word(v + 1), Pow2(k) - 1) == Inc(v, Pow2(k))
  {
    WordMask(v + 1, k);
    if v + 1 < Pow2(k) {
      ModUnique(v + 1, Pow2(k), 0, v + 1);
    } else if v + 1 == Pow2(k) {
      ModUnique(v + 1, Pow2(k), 1, 0);
    }
  }

  lemma MaskedDecrement(v: int, k: nat)
    requires k <= 30
    ensures 0 <= v < Pow2(k) ==> BitAnd(Word(v - 1), Pow2(k) - 1) == Dec(v, Pow2(k))
  {
    WordMask(v - 1, k);
    if 0 < v < Pow2(k) {
      ModUnique(v - 1, Pow2(k), 0, v - 1);
    } else if v == 0 {
      ModUnique(-1, Pow2(k), -1, Pow2(k) - 1);
    }
  }

  // ---------- division with a symbolic divisor, in small steps ----------

  lemma Swap(q: int, p: int)
    ensures 2 * (q * p) == q * (2 * p)
  {
  }

  lemma DivMod(v: int, n: nat) returns (q: int, r: int)
    requires n > 0
    ensures v == q * n + r && 0 <= r < n && r == v % n
  {
    q, r := v / n, v % n;
  }

  lemma MulAtLeast(e: int, n: int)
    requires n > 0 && e >= 1
    ensures e * n >= n
  {
  }

  lemma ModUnique(v: int, n: nat, q: int, r: int)
    requires n > 0 && 0 <= r < n && v == q * n + r
    ensures v % n == r
  {
    var q', r' := DivMod(v, n);
    assert (q' - q) * n == r - r' by { Distribute(q', q, n); }
    if q' > q {
      MulAtLeast(q' - q, n);
      assert false;
    } else if q' < q {
      MulAtLeast(q - q', n);
      Negate(q', q, n);
      assert false;
    }
  }

  lemma Distribute(a: int, b: int, n: int)
    ensures (a - b) * n == a * n - b * n
  {
  }

  lemma Negate(a: int, b: int, n: int)
    ensures (b - a) * n == -((a - b) * n)
  {
  }

  lemma ModShift(a: int, d: int, n: nat)
    requires n > 0
    ensures (a % n + d) % n == (a + d) % n
  {
    var q, r := DivMod(a, n);
    var q2, r2 := DivMod(r + d, n);
    assert (q + q2) * n == q * n + q2 * n by { Distribute(q, -q2, n); Negate(0, q2, n); }
    ModUnique(a + d, n, q + q2, r2);
  }

  lemma ModOfMod(v: int, k: nat, j: nat)
    requires k <= j
    ensures (v % Pow2(j)) % Pow2(k) == v % Pow2(k)
  {
    var n := Pow2(k);
    var f := Pow2Quotient(k, j);
    var q, r := DivMod(v, Pow2(j));
    var q2, r2 := DivMod(r, n);
    assert v == (q * f + q2) * n + r2 by { Regroup(q, f, q2, n); }
    ModUnique(v, n, q * f + q2, r2);
  }

  lemma Regroup(q: int, f: int, q2: int, n: int)
    ensures q * (f * n) + q2 * n == (q * f + q2) * n
  {
  }

  lemma {:induction false} Pow2Quotient(k: nat, j: nat) returns (f: nat)
    requires k <= j
    ensures Pow2(j) == f * Pow2(k)
  {
    if j == k {
      f := 1;
    } else {
      var g := Pow2Quotient(k, j - 1);
      f := 2 * g;
      Swap(Pow2(k), g);
    }
  }

  lemma WordIsPow2()
    ensures WORD == Pow2(32)
  {
    assert Pow2(4) == 16;
    Pow2Sum(4, 4);
    assert Pow2(8) == 256 by { hide Pow2; }
    Pow2Sum(8, 8);
    assert Pow2(16) == 65536 by { hide Pow2; }
    Pow2Sum(16, 16);
  }

  lemma {:induction false} Pow2Sum(a: nat, b: nat)
    ensures Pow2(a + b) == Pow2(a) * Pow2(b)
  {
    if a > 0 {
      Pow2Sum(a - 1, b);
      Double(Pow2(a - 1), Pow2(b));
    }
  }

  lemma Double(x: int, y: int)
    ensures 2 * (x * y) == (2 * x) * y
  {
  }
}
