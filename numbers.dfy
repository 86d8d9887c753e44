/** Python 2's `int(s)`, `int(s, 16)` and `hex(n)` on tokens, and bit 1 of an unbounded integer. */
module Numbers {
  import opened Wrappers

  /** The value of `c` as a hexadecimal digit (either case), or -1 when it is none. */
  function DigitValue(c: char): (v: int)
    ensures -1 <= v < 16
    ensures '0' <= c <= '9' ==> v == c as int - '0' as int
  {
    if '0' <= c <= '9' then c as int - '0' as int
    else if 'a' <= c <= 'f' then c as int - 'a' as int + 10
    else if 'A' <= c <= 'F' then c as int - 'A' as int + 10
    else -1
  }

  predicate IsDigit(c: char, base: nat)
  {
    0 <= DigitValue(c) < base
  }

  /** The number the digit string `ds` denotes in `base`, most significant digit first, or
      `None` when one of its characters is not a digit of `base`. */
  function DigitsValue(ds: string, base: nat): Option<nat>
  {
    if ds == [] then Some(0)
    else
      var last := ds[|ds| - 1];
      match DigitsValue(ds[..|ds| - 1], base)
      case None => None
      case Some(v) => if IsDigit(last, base) then Some(v * base + DigitValue(last)) else None
  }

  /** Python 2's `int(s, base)` for base 10 and 16 on a token without white space: an optional
      sign, for base 16 an optional `0x`/`0X` prefix, then at least one digit. `None` stands
      for the `ValueError` the source does not catch. */
  function ParseInt(s: string, base: nat): Option<int>
    requires base == 10 || base == 16
  {
    var negative := |s| > 0 && s[0] == '-';
    var unsigned := if |s| > 0 && (s[0] == '-' || s[0] == '+') then s[1..] else s;
    var digits :=
      if base == 16 && |unsigned| >= 2 && unsigned[0] == '0' && (unsigned[1] == 'x' || unsigned[1] == 'X')
      then unsigned[2..] else unsigned;
    if digits == [] then None
    else match DigitsValue(digits, base)
      case None => None
      case Some(magnitude) =>
        var m: int := magnitude;
        Some(if negative then -m else m)
  }

  /** `int(s)` */
  function ParseDecimal(s: string): Option<int>
  {
    ParseInt(s, 10)
  }

  /** `int(s, 16)` */
  function ParseHex(s: string): Option<int>
  {
    ParseInt(s, 16)
  }

  function DigitChar(d: nat): (c: char)
    requires d < 16
    ensures DigitValue(c) == d
  {
    if d < 10 then ('0' as int + d) as char else ('a' as int + d - 10) as char
  }

  /** The digits of `n` in `base`, lower case, without leading zeros. */
  function Digits(n: nat, base: nat): (ds: string)
    requires base == 10 || base == 16
    ensures ds != [] && ds[0] != '-' && ds[0] != '+'
    ensures forall i :: 0 <= i < |ds| ==> IsDigit(ds[i], base)
  {
    if n < base then [DigitChar(n)] else Digits(n / base, base) + [DigitChar(n % base)]
  }

  /** The digits of `n` read back as `n`. */
  lemma {:induction false} DigitsRead(n: nat, base: nat)
    requires base == 10 || base == 16
    ensures DigitsValue(Digits(n, base), base) == Some(n)
    decreases n
  {
    var ds := Digits(n, base);
    if n < base {
      assert ds[..0] == [];
    } else {
      var q, r := n / base, n % base;
      assert n == q * base + r && 0 <= r < base;
      DigitsRead(q, base);
      assert ds[..|ds| - 1] == Digits(q, base) && ds[|ds| - 1] == DigitChar(r);
    }
  }

  /** `hex(n).rstrip('L')`: `0x` and the digits, with a minus sign in front of negative numbers. */
  function HexString(n: int): (s: string)
    ensures StartsWithHexPrefix(s)
  {
    if n < 0 then "-0x" + Digits(-n, 16) else "0x" + Digits(n, 16)
  }

  /** `str(n)` */
  function DecimalString(n: int): (s: string)
    ensures s != []
  {
    if n < 0 then "-" + Digits(-n, 10) else Digits(n, 10)
  }

  predicate StartsWithHexPrefix(s: string)
  {
    (|s| >= 2 && s[..2] == "0x") || (|s| >= 3 && s[..3] == "-0x")
  }

  lemma ParseHexUnsigned(ds: string, m: nat)
    requires ds != [] && ds[0] != '-' && ds[0] != '+' && DigitsValue(ds, 16) == Some(m)
    ensures ParseHex("0x" + ds) == Some(m)
  {
    var s := "0x" + ds;
    assert s[0] == '0' && s[1] == 'x';
    assert s[2..] == ds;
  }

  lemma ParseHexNegative(ds: string, m: nat)
    requires ds != [] && ds[0] != '-' && ds[0] != '+' && DigitsValue(ds, 16) == Some(m)
    ensures ParseHex("-0x" + ds) == Some(-(m as int))
  {
    var s := "-0x" + ds;
    var u := s[1..];
    assert s[0] == '-';
    assert u == "0x" + ds;
    assert u[0] == '0' && u[1] == 'x';
    assert u[2..] == ds;
  }

  /** `int(hex(n), 16) == n`: what `hex` prints, `int(_, 16)` reads back. */
  lemma HexRoundTrip(n: int)
    ensures ParseHex(HexString(n)) == Some(n)
  {
    if n < 0 {
      var ds := Digits(-n, 16);
      DigitsRead(-n, 16);
      ParseHexNegative(ds, -n);
      assert HexString(n) == "-0x" + ds;
    } else {
      var ds := Digits(n, 16);
      DigitsRead(n, 16);
      ParseHexUnsigned(ds, n);
      assert HexString(n) == "0x" + ds;
    }
  }

  /** `int(str(n)) == n` */
  lemma DecimalRoundTrip(n: int)
    ensures ParseDecimal(DecimalString(n)) == Some(n)
  {
    if n < 0 {
      var ds := Digits(-n, 10);
      DigitsRead(-n, 10);
      var s := "-" + ds;
      assert s[0] == '-' && s[1..] == ds;
    } else {
      DigitsRead(n, 10);
    }
  }

  /** Bit 1 of `v` in the two's complement view Python's `&` and `|` take of every integer. */
  function Bit1(v: int): int
  {
    (v / 2) % 2
  }

  /** The integer with bits above bit 1 given by `q`, and bits 1 and 0 given by `m`. */
  lemma Decompose(q: int, m: int)
    requires 0 <= m < 4
    ensures (4 * q + m) / 4 == q && (4 * q + m) % 2 == m % 2 && Bit1(4 * q + m) == m / 2
  {
    var v := 4 * q + m;
    assert v / 2 == 2 * q + m / 2;
  }

  /** `v | (1 << 1)`: bit 1 set; bit 0 (`v % 2`) and the bits above bit 1 (`v / 4`) unchanged. */
  function SetBit1(v: int): (r: int)
    ensures Bit1(r) == 1
    ensures r / 4 == v / 4 && r % 2 == v % 2
  {
    var q, m := v / 4, v % 4;
    Decompose(q, m);
    if Bit1(v) == 1 then v else Decompose(q, m + 2); v + 2
  }

  /** `v & ~(1 << 1)`: bit 1 cleared; bit 0 and the bits above bit 1 unchanged. */
  function ClearBit1(v: int): (r: int)
    ensures Bit1(r) == 0
    ensures r / 4 == v / 4 && r % 2 == v % 2
  {
    var q, m := v / 4, v % 4;
    Decompose(q, m);
    if Bit1(v) == 1 then Decompose(q, m - 2); v - 2 else v
  }

  /** Bit 0, bit 1 and the bits above bit 1 together determine an integer, so the contracts of
      SetBit1 and ClearBit1 fix their results. */
  lemma BitsDetermine(x: int, y: int)
    requires x / 4 == y / 4 && x % 2 == y % 2 && Bit1(x) == Bit1(y)
    ensures x == y
  {
    var q, mx, my := x / 4, x % 4, y % 4;
    assert x == 4 * q + mx && y == 4 * q + my;
    Decompose(q, mx);
    Decompose(q, my);
    assert mx == 2 * (mx / 2) + mx % 2 && my == 2 * (my / 2) + my % 2;
  }

  /** Enabling and disabling the bit give values that differ in bit 1 only. */
  lemma SetAndClearDifferInBit1(v: int)
    ensures SetBit1(v) == ClearBit1(v) + 2
  {
  }
}
