/** Integer constants of a given width: mapleall/maple_ir/include/mir_const.h:85-136.  The 64-bit
    arithmetic is written out over the integers. */
module IntConst {

  function Pow2(n: nat): (r: int)
    ensures r > 0
  {
    if n == 0 then 1 else 2 * Pow2(n - 1)
  }

  lemma {:induction false} Pow2Sum(m: nat, n: nat)
    ensures Pow2(m + n) == Pow2(m) * Pow2(n)
  {
    if m > 0 {
      Pow2Sum(m - 1, n);
    }
  }

  lemma {:induction false} Pow2Grows(m: nat, n: nat)
    requires m <= n
    ensures Pow2(m) <= Pow2(n)
  {
    if m < n {
      Pow2Grows(m, n - 1);
    }
  }

  // ---------------------------------------------------------------- machine integers

  /** static_cast<uint64> */
  function ToUint64(x: int): int {
    x % Pow2(64)
  }

  /** static_cast<int64>: two's complement. */
  function ToInt64(x: int): int {
    (x + Pow2(63)) % Pow2(64) - Pow2(63)
  }

  predicate IsInt64(x: int) {
    -Pow2(63) <= x < Pow2(63)
  }

  /** `x << k` of an int64, and of a uint64; `>>` is division rounded down for both. */
  function ShiftLeft(x: int, k: nat): int {
    ToInt64(x * Pow2(k))
  }

  function ShiftLeftU(x: int, k: nat): int {
    ToUint64(x * Pow2(k))
  }

  function ShiftRight(x: int, k: nat): int {
    x / Pow2(k)
  }

  lemma Twice(n: nat)
    requires n > 0
    ensures Pow2(n) == 2 * Pow2(n - 1)
  {
  }

  lemma Int64Range(x: int)
    ensures IsInt64(ToInt64(x)) && (IsInt64(x) ==> ToInt64(x) == x)
  {
    hide Pow2;
    Twice(64);
    var h, y := Pow2(63), x + Pow2(63);
    assert Pow2(64) == h + h;
    if IsInt64(x) {
      ModOfSum(0, Pow2(64), y);
    }
  }

  /** `a` and `b` differ by a multiple of 2^w. */
  ghost predicate Congruent(a: int, b: int, w: nat) {
    exists k: int :: a - b == k * Pow2(w)
  }

  /** What a value of the type can be. */
  predicate FitsType(x: int, signed: bool, w: nat)
    requires w > 0
  {
    if signed then -Pow2(w - 1) <= x < Pow2(w - 1) else 0 <= x < Pow2(w)
  }

  // ---------------------------------------------------------------- shifting up and down again

  lemma ModScale(a: int, m: int, s: int)
    requires m > 0 && s > 0
    ensures m * s > 0 && (a * s) % (m * s) == (a % m) * s
  {
    var q, r := a / m, a % m;
    assert a * s == q * (m * s) + r * s by {
      assert a == q * m + r;
      assert (q * m + r) * s == q * m * s + r * s;
      assert q * m * s == q * (m * s);
    }
    assert 0 <= r * s < m * s by {
      ScaleLess(r, m, s);
    }
    ModOfSum(q, m * s, r * s);
  }

  lemma ScaleLess(r: int, m: int, s: int)
    requires 0 <= r < m && s > 0
    ensures 0 <= r * s < m * s
  {
  }

  lemma {:induction false} Least(k: int, n: int)
    requires k >= 1 && n > 0
    ensures k * n >= n
    decreases k
  {
    if k > 1 {
      Least(k - 1, n);
      assert k * n == (k - 1) * n + n;
    }
  }

  /** Quotient and remainder are unique. */
  lemma OneQuotient(q: int, r: int, q': int, r': int, n: int)
    requires 0 <= r < n && 0 <= r' < n && q * n + r == q' * n + r'
    ensures q == q' && r == r'
  {
    assert (q - q') * n == r' - r;
    if q > q' {
      Least(q - q', n);
    } else if q < q' {
      assert (q' - q) * n == r - r';
      Least(q' - q, n);
    }
  }

  lemma ModOfSum(q: int, n: int, r: int)
    requires n > 0 && 0 <= r < n
    ensures (q * n + r) % n == r && (q * n + r) / n == q
  {
    var x := q * n + r;
    OneQuotient(q, r, x / n, x % n, n);
  }

  lemma DivScale(a: int, s: int)
    requires s > 0
    ensures (a * s) / s == a
  {
    ModOfSum(a, s, 0);
  }

  lemma UnsignedShifts(v: int, w: nat)
    requires 0 < w <= 64
    ensures ShiftRight(ShiftLeftU(ToUint64(v), 64 - w), 64 - w) == v % Pow2(w)
  {
    var s, u := Pow2(64 - w), ToUint64(v);
    Pow2Sum(w, 64 - w);
    ModScale(u, Pow2(w), s);
    DivScale(u % Pow2(w), s);
    ModMod(v, Pow2(w), s);
  }

  /** A remainder by a multiple keeps the remainder. */
  lemma ModMod(v: int, m: int, s: int)
    requires m > 0 && s > 0
    ensures m * s > 0 && (v % (m * s)) % m == v % m
  {
    var n := m * s;
    var q, r := v / n, v % n;
    var p, t := r / m, r % m;
    assert v == (q * s + p) * m + t by {
      assert v == q * n + r && r == p * m + t;
      assert q * n == q * s * m;
      assert (q * s + p) * m == q * s * m + p * m;
    }
    ModOfSum(q * s + p, m, t);
  }

  lemma SignedShifts(v: int, w: nat)
    requires 0 < w <= 64
    ensures ShiftRight(ShiftLeft(v, 64 - w), 64 - w) == (v + Pow2(w - 1)) % Pow2(w) - Pow2(w - 1)
  {
    hide Pow2;
    var s, h, n := Pow2(64 - w), Pow2(w - 1), Pow2(w);
    Pow2Sum(w, 64 - w);
    Pow2Sum(w - 1, 64 - w);
    Distribute(v, h, s);
    ModScale(v + h, n, s);
    var r := (v + h) % n;
    Distribute(r - h, h, s);
    assert ShiftLeft(v, 64 - w) == (r - h) * s;
    DivScale(r - h, s);
  }

  lemma Distribute(a: int, b: int, s: int)
    ensures a * s + b * s == (a + b) * s
  {
  }

  // ---------------------------------------------------------------- MIRIntConst

  /** The value under the type: through shifts up and down by 64 less the width. */
  function Truncated(v: int, signed: bool, w: nat): int
    requires 0 < w <= 64
  {
    if signed then ShiftRight(ShiftLeft(v, 64 - w), 64 - w)
    else ToInt64(ShiftRight(ShiftLeftU(ToUint64(v), 64 - w), 64 - w))
  }

  /** The representative modulo 2^w in the range of the type.  The int64 that holds it is the value
      itself, but for unsigned 64-bit types, where it is the value read as an int64. */
  lemma TruncatedRepresents(v: int, signed: bool, w: nat) returns (x: int)
    requires 0 < w <= 64
    ensures FitsType(x, signed, w) && Congruent(v, x, w) && Truncated(v, signed, w) == ToInt64(x)
    ensures signed || w < 64 ==> Truncated(v, signed, w) == x
    ensures IsInt64(Truncated(v, signed, w)) && Congruent(v, Truncated(v, signed, w), w)
  {
    hide Pow2, ShiftLeft, ShiftLeftU, ShiftRight, ToInt64, ToUint64;
    var h, n := Pow2(w - 1), Pow2(w);
    Twice(w);
    Pow2Grows(w - 1, 63);
    if signed {
      SignedShifts(v, w);
      x := (v + h) % n - h;
      Remainder(v + h, n);
      Differs(v, x, (v + h) / n, w);
    } else {
      UnsignedShifts(v, w);
      x := v % n;
      Remainder(v, n);
      Differs(v, x, v / n, w);
    }
    Int64Range(x);
    if !signed {
      ReadAsInt64(v, x, v / n, w);
    }
  }

  lemma Remainder(v: int, n: int)
    requires n > 0
    ensures v == (v / n) * n + v % n && 0 <= v % n < n
  {
  }

  lemma Differs(a: int, b: int, k: int, w: nat)
    requires a == k * Pow2(w) + b
    ensures Congruent(a, b, w)
  {
    assert a - b == k * Pow2(w);
  }

  /** Only an unsigned 64-bit value can change when it is read as an int64, by 2^64. */
  lemma ReadAsInt64(v: int, x: int, k: int, w: nat)
    requires 0 < w <= 64 && 0 <= x < Pow2(w) && v == k * Pow2(w) + x
    ensures w < 64 ==> ToInt64(x) == x
    ensures Congruent(v, ToInt64(x), w)
  {
    hide Pow2;
    Twice(64);
    if w < 64 {
      Pow2Grows(w, 63);
      Int64Range(x);
      Differs(v, x, k, w);
    } else if x < Pow2(63) {
      Int64Range(x);
      Differs(v, x, k, w);
    } else {
      ModOfSum(1, Pow2(64), x - Pow2(63));
      assert ToInt64(x) == x - Pow2(64);
      Distribute(k, 1, Pow2(64));
      Differs(v, ToInt64(x), k + 1, w);
    }
  }

  /** There is only one such representative. */
  lemma OnlyOne(x: int, y: int, signed: bool, w: nat)
    requires 0 < w && FitsType(x, signed, w) && FitsType(y, signed, w) && Congruent(x, y, w)
    ensures x == y
  {
    hide Pow2;
    Twice(w);
    var k :| x - y == k * Pow2(w);
    if k >= 1 {
      Least(k, Pow2(w));
    } else if k <= -1 {
      Negated(k, Pow2(w));
      Least(-k, Pow2(w));
    }
  }

  lemma Negated(k: int, n: int)
    ensures (-k) * n == -(k * n)
  {
  }

  lemma CongruentTrans(a: int, b: int, c: int, w: nat)
    requires Congruent(a, b, w) && Congruent(a, c, w)
    ensures Congruent(b, c, w)
  {
    hide Pow2;
    var k :| a - b == k * Pow2(w);
    var l :| a - c == l * Pow2(w);
    Distribute(l, -k, Pow2(w));
    Negated(k, Pow2(w));
    assert b - c == (l + -k) * Pow2(w);
  }

  /** Truncating twice is truncating once. */
  lemma TruncatedTwice(v: int, signed: bool, w: nat)
    requires 0 < w <= 64
    ensures Truncated(Truncated(v, signed, w), signed, w) == Truncated(v, signed, w)
  {
    hide Pow2, Truncated, ToInt64;
    var t := Truncated(v, signed, w);
    var x := TruncatedRepresents(v, signed, w);
    var y := TruncatedRepresents(t, signed, w);
    CongruentTrans(v, t, x, w);
    CongruentTrans(t, x, y, w);
    OnlyOne(x, y, signed, w);
  }

  /** How many binary digits. */
  function BitLength(t: nat): nat {
    if t == 0 then 0 else 1 + BitLength(t / 2)
  }

  lemma {:induction false} BitLengthIs(t: nat, w: nat)
    ensures t < Pow2(w) <==> BitLength(t) <= w
  {
    if t > 0 && w > 0 {
      BitLengthIs(t / 2, w - 1);
    }
  }

  class MIRIntConst {
    const signed: bool     // IsSignedInteger of the type
    const bitSize: nat     // GetPrimTypeBitSize of the type
    var value: int

    /** Types wider than 64 bits stop the compiler. */
    constructor (val: int, isSigned: bool, size: nat)
      requires IsInt64(val) && 0 < size <= 64
      ensures signed == isSigned && bitSize == size && value == Truncated(val, isSigned, size) && IsInt64(value)
    {
      signed, bitSize := isSigned, size;
      value := val;
      new;
      var ok := Trunc(size);
    }

    method Trunc(width: nat) returns (ok: bool)
      requires 0 < width && IsInt64(value)
      modifies this`value
      ensures ok <==> width <= 64
      ensures value == (if ok then Truncated(old(value), signed, width) else old(value)) && IsInt64(value)
    {
      var shiftBitNum: int := 64 - width;
      if shiftBitNum < 0 {
        return false;
      }
      ghost var x := TruncatedRepresents(value, signed, width);
      if signed {
        value := ShiftRight(ShiftLeft(value, shiftBitNum), shiftBitNum);
      } else {
        value := ToInt64(ShiftRight(ShiftLeftU(ToUint64(value), shiftBitNum), shiftBitNum));
      }
      return true;
    }

    function GetValueUnderType(): int
      requires 0 < bitSize <= 64
      reads this
    {
      if signed then ToInt64(ShiftRight(ShiftLeft(value, 64 - bitSize), 64 - bitSize))
      else ToInt64(ShiftRight(ShiftLeftU(ToUint64(value), 64 - bitSize), 64 - bitSize))
    }

    /** The least w with -2^w <= value < 2^w; 1 for 0. */
    method GetBitWidth() returns (width: nat)
      requires IsInt64(value)
      ensures width <= 63
      ensures if value == 0 then width == 1
        else forall w: nat :: -Pow2(w) <= value < Pow2(w) <==> width <= w
    {
      if value == 0 {
        return 1;
      }
      width := 0;
      ghost var t: nat := if value < 0 then -(value + 1) else value;
      var tmp: nat := if value < 0 then -(value + 1) else value;
      while tmp != 0
        invariant width + BitLength(tmp) == BitLength(t)
      {
        width := width + 1;
        tmp := tmp / 2;
      }
      BitLengthIs(t, 63);
      forall w: nat ensures -Pow2(w) <= value < Pow2(w) <==> width <= w {
        BitLengthIs(t, w);
      }
    }
  }

  /** Reading a constant under its own type gives its value. */
  lemma ValueUnderTypeAgrees(c: MIRIntConst, v: int)
    requires 0 < c.bitSize <= 64 && c.value == Truncated(v, c.signed, c.bitSize)
    ensures c.GetValueUnderType() == c.value
  {
    var x := TruncatedRepresents(c.value, c.signed, c.bitSize);
    TruncatedTwice(v, c.signed, c.bitSize);
    Int64Range(Truncated(c.value, c.signed, c.bitSize));
  }
}
