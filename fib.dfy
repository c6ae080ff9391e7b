/** The computing helpers of the queue-and-semaphore demonstration program
    test/3_fib.cpp: `isDigit`, the iterative `fib`, and the decimal number
    that `SerialInput` builds from the digits it reads. `unsigned long` is
    32 bits wide and `unsigned long long` 64 bits, as on the AVR boards. */
module FibDemo {
  import opened Machine

  /** The Fibonacci numbers, `F(1) = F(2) = 1`. */
  function F(n: nat): nat
  {
    if n == 0 then 0 else if n == 1 then 1 else F(n - 1) + F(n - 2)
  }

  /** A multiple of a positive modulus strictly between `-m` and `m` is
      zero. */
  lemma MulBound(d: int, m: int)
    requires m > 0 && -m < d * m < m
    ensures d == 0
  {
  }

  /** The remainder is the `r` of any decomposition `s = q * m + r` with
      `0 <= r < m`. */
  lemma ModUnique(s: int, q: int, r: int, m: int)
    requires m > 0 && 0 <= r < m && s == q * m + r
    ensures s % m == r
  {
    var d := q - s / m;
    assert s == (s / m) * m + s % m;
    assert d * m == q * m - (s / m) * m;
    MulBound(d, m);
  }

  /** Reduction modulo a power of two: `(x mod 2^64) mod 2^32 = x mod 2^32`,
      and a sum of reduced values reduces like the sum. */
  lemma ModFacts(x: nat, y: nat)
    ensures (x % Word64) % Word32 == x % Word32
    ensures (x % Word64 + y % Word64) % Word64 == (x + y) % Word64
  {
    var q, r := x / Word64, x % Word64;
    var t, u := r / Word32, r % Word32;
    assert x == q * Word64 + r && r == t * Word32 + u;
    assert q * Word64 == (q * Word32) * Word32;
    ModUnique(x, q * Word32 + t, u, Word32);
    var p, v := y / Word64, y % Word64;
    assert y == p * Word64 + v;
    var w, z := (r + v) / Word64, (r + v) % Word64;
    assert r + v == w * Word64 + z;
    ModUnique(x + y, q + p + w, z, Word64);
  }

  /** `isDigit(inp)`: true exactly for the ten decimal digits. */
  function IsDigit(ch: char): (r: bool)
    ensures r <==> ch in "0123456789"
  {
    '0' <= ch <= '9'
  }

  /** `fib(i)` as written: 1 for `i <= 1`; otherwise `c = 2` and the loop
      `while (i-- > 2) { c = a + b; a = b; b = c; }` on 64-bit values runs
      `i - 2` times; the result is narrowed to 32 bits. It is the Fibonacci
      number `F(i)` reduced to 32 bits for every `i >= 3`, but 2 for
      `i == 2`. */
  method Fib(i: uint8) returns (r: uint32)
    ensures i <= 1 ==> r == 1
    ensures i == 2 ==> r == 2
    ensures i >= 3 ==> r == F(i) % Word32
  {
    if i <= 1 {
      return 1;
    }
    var n: int := i;
    var a: uint64, b: uint64, c: uint64 := 1, 1, 2;
    while n > 2
      invariant 2 <= n <= i
      invariant a == F(i - n + 1) % Word64 && b == F(i - n + 2) % Word64
      invariant n < i ==> c == b
      invariant n == i ==> c == 2
      decreases n
    {
      ghost var k := i - n;
      n := n - 1;
      ModFacts(F(k + 1), F(k + 2));
      assert F(k + 3) == F(k + 1) + F(k + 2);
      c := (a + b) % Word64;
      a := b;
      b := c;
    }
    if i > 2 {
      ModFacts(F(i), 0);
    }
    r := c % Word32;
  }

  /** `fib` as evidently intended: the same loop with `c` starting at 1,
      so that the loop-free case `i == 2` also returns `F(2) = 1`. */
  method FibCorrected(i: uint8) returns (r: uint32)
    ensures i == 0 ==> r == 1
    ensures i >= 1 ==> r == F(i) % Word32
  {
    if i <= 1 {
      return 1;
    }
    var n: int := i;
    var a: uint64, b: uint64, c: uint64 := 1, 1, 1;
    while n > 2
      invariant 2 <= n <= i
      invariant a == F(i - n + 1) % Word64 && b == F(i - n + 2) % Word64
      invariant c == b
      decreases n
    {
      ghost var k := i - n;
      n := n - 1;
      ModFacts(F(k + 1), F(k + 2));
      assert F(k + 3) == F(k + 1) + F(k + 2);
      c := (a + b) % Word64;
      a := b;
      b := c;
    }
    ModFacts(F(i), 0);
    r := c % Word32;
  }

  /** The values of `fib` as written are not a Fibonacci sequence:
      `fib(2) + fib(3) = 4` but `fib(4) = 3`. */
  lemma FibAsWrittenBreaksRecurrence()
    ensures F(3) % Word32 == 2 && F(4) % Word32 == 3
    ensures 2 + F(3) % Word32 != F(4) % Word32
  {
  }

  /** The corrected values satisfy the recurrence from `i = 1` on, in
      32-bit arithmetic; `F(1) = F(2) = 1`. */
  lemma FibCorrectedRecurrence(i: nat)
    requires i >= 1
    ensures F(i + 2) % Word32 == (F(i + 1) % Word32 + F(i) % Word32) % Word32
    ensures F(1) % Word32 == 1 && F(2) % Word32 == 1
  {
    var x, y := F(i + 1), F(i);
    var q, r := x / Word32, x % Word32;
    var p, v := y / Word32, y % Word32;
    assert x == q * Word32 + r && y == p * Word32 + v;
    var w, z := (r + v) / Word32, (r + v) % Word32;
    assert r + v == w * Word32 + z;
    ModUnique(x + y, q + p + w, z, Word32);
  }

  /** `inp - '0'` for a digit. */
  function DigitValue(ch: char): (r: nat)
    requires IsDigit(ch)
    ensures r < 10 && "0123456789"[r] == ch
  {
    ch as int - '0' as int
  }

  /** The value of a string of decimal digits, most significant first. */
  function Decimal(ds: seq<char>): nat
    requires forall k :: 0 <= k < |ds| ==> IsDigit(ds[k])
  {
    if ds == [] then 0 else Decimal(ds[..|ds| - 1]) * 10 + DigitValue(ds[|ds| - 1])
  }

  /** One step of the accumulator: `inum *= 10; inum += inp - '0';` in
      32-bit arithmetic. */
  function Shifted(inum: uint32, ch: char): uint32
    requires IsDigit(ch)
  {
    (inum * 10 + DigitValue(ch)) % Word32
  }

  /** The accumulator after the digits `ds`, starting from `inum`. */
  function ShiftedAll(inum: uint32, ds: seq<char>): uint32
    requires forall k :: 0 <= k < |ds| ==> IsDigit(ds[k])
  {
    if ds == [] then inum else Shifted(ShiftedAll(inum, ds[..|ds| - 1]), ds[|ds| - 1])
  }

  /** Multiplying by ten and adding a digit commutes with the reduction
      to 32 bits. */
  lemma ShiftMod(x: nat, d: nat)
    ensures ((x % Word32) * 10 + d) % Word32 == (x * 10 + d) % Word32
  {
    var q, r := x / Word32, x % Word32;
    assert x == q * Word32 + r;
    var w, z := (r * 10 + d) / Word32, (r * 10 + d) % Word32;
    assert r * 10 + d == w * Word32 + z;
    assert x * 10 + d == (q * 10 + w) * Word32 + z;
    ModUnique(x * 10 + d, q * 10 + w, z, Word32);
  }

  /** Adding to a reduced value reduces like adding to the value. */
  lemma AddMod(y: nat, d: nat)
    ensures ((y % Word32) + d) % Word32 == (y + d) % Word32
  {
    var q, r := y / Word32, y % Word32;
    assert y == q * Word32 + r;
    var w, z := (r + d) / Word32, (r + d) % Word32;
    assert r + d == w * Word32 + z;
    ModUnique(y + d, q + w, z, Word32);
  }

  /** Starting from 0, the accumulator holds the decimal value of the digits
      read so far, reduced to 32 bits. */
  lemma {:induction false} ShiftedAllIsDecimal(ds: seq<char>)
    requires forall k :: 0 <= k < |ds| ==> IsDigit(ds[k])
    ensures ShiftedAll(0, ds) == Decimal(ds) % Word32
  {
    if ds != [] {
      var pre := ds[..|ds| - 1];
      ShiftedAllIsDecimal(pre);
      var x, d := Decimal(pre), DigitValue(ds[|ds| - 1]);
      assert Decimal(ds) == x * 10 + d;
      assert ShiftedAll(0, ds) == ((x % Word32) * 10 + d) % Word32;
      ShiftMod(x, d);
    }
  }

  datatype Option<T> = None | Some(value: T)

  /** The state `SerialInput` keeps between calls: `static unsigned long
      inum`, zero-initialised. */
  class SerialInput {
    var inum: uint32

    constructor ()
      ensures inum == 0
    {
      inum := 0;
    }

    /** The effect of one character read from the serial port: a digit is
        shifted into `inum`; anything else hands `inum` to the `toCalc`
        queue (returned here) and clears it. */
    method Feed(ch: char) returns (taken: Option<uint32>)
      modifies this
      ensures IsDigit(ch) ==> taken == None && inum == Shifted(old(inum), ch)
      ensures !IsDigit(ch) ==> taken == Some(old(inum)) && inum == 0
    {
      if '0' <= ch <= '9' {
        AddMod(inum as nat * 10, DigitValue(ch));
        inum := inum * 10 % Word32;
        inum := (inum + (ch as int - '0' as int)) % Word32;
        taken := None;
      } else {
        taken := Some(inum);
        inum := 0;
      }
    }

    /** Digits followed by a separator: the number handed on is the
        decimal value of the digits, reduced to 32 bits. */
    method FeedNumber(ds: seq<char>, sep: char) returns (taken: Option<uint32>)
      requires inum == 0 && !IsDigit(sep)
      requires forall k :: 0 <= k < |ds| ==> IsDigit(ds[k])
      modifies this
      ensures taken == Some(Decimal(ds) % Word32) && inum == 0
    {
      var j := 0;
      while j < |ds|
        invariant 0 <= j <= |ds|
        invariant inum == ShiftedAll(0, ds[..j])
      {
        assert ds[..j + 1][..j] == ds[..j];
        var _ := Feed(ds[j]);
        j := j + 1;
      }
      assert ds[..|ds|] == ds;
      ShiftedAllIsDecimal(ds);
      taken := Feed(sep);
    }
  }
}
