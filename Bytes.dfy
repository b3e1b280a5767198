/**
 * Byte buffers as the package format sees them: fixed-width NUL-padded
 * fields, integers printed with `%i`, and the C library's `atoi` and
 * `strtoul(s, NULL, 0)` reading them back. The platform is 64-bit Windows:
 * `int` and `unsigned long` are both 32 bits wide.
 */
module Bytes {

  newtype byte = x: int | 0 <= x < 256

  const NUL: byte := 0
  const CHAR_0: byte := 48
  const CHAR_PLUS: byte := 43
  const CHAR_MINUS: byte := 45
  const CHAR_LOWER_X: byte := 120
  const CHAR_UPPER_X: byte := 88

  const UINT32_MODULUS: nat := 0x1_0000_0000
  const INT_MAX: nat := 0x7FFF_FFFF
  const ULONG_MAX: nat := 0xFFFF_FFFF

  /** A zero-filled buffer of `n` bytes (`memset(buf, 0, n)`). */
  function Zeros(n: nat): (r: seq<byte>)
    ensures |r| == n
    ensures forall i :: 0 <= i < n ==> r[i] == NUL
  {
    seq(n, _ => NUL)
  }

  lemma ZerosConcat(a: nat, b: nat)
    ensures Zeros(a) + Zeros(b) == Zeros(a + b)
  {
    assert forall i :: 0 <= i < a + b ==> (Zeros(a) + Zeros(b))[i] == NUL;
  }

  predicate NoNul(s: seq<byte>) {
    forall i :: 0 <= i < |s| ==> s[i] != NUL
  }

  /** The C string a buffer holds: its bytes up to the first NUL, or all of them. */
  function CString(s: seq<byte>): (r: seq<byte>)
    ensures |r| <= |s| && r == s[..|r|]
    ensures NoNul(r)
    ensures |r| < |s| ==> s[|r|] == NUL
  {
    if s == [] || s[0] == NUL then [] else [s[0]] + CString(s[1..])
  }

  /** The three facts CString ensures pin its result down. */
  lemma CStringUnique(s: seq<byte>, k: nat)
    requires k <= |s| && NoNul(s[..k]) && (k < |s| ==> s[k] == NUL)
    ensures CString(s) == s[..k]
  {
    var c := CString(s);
    assert forall i :: 0 <= i < k ==> s[i] != NUL by {
      forall i | 0 <= i < k ensures s[i] != NUL {
        assert s[..k][i] == s[i];
      }
    }
    assert forall i :: 0 <= i < |c| ==> c[i] == s[i];
  }

  /** `memset(buf, 0, w)` then `sprintf_s(buf, w, "%s", s)`: the text, then NULs. */
  function TextField(s: seq<byte>, w: nat): (r: seq<byte>)
    requires NoNul(s) && |s| < w
    ensures |r| == w && r[..|s|] == s
    ensures CString(r) == s
  {
    var r := s + Zeros(w - |s|);
    assert r[..|s|] == s;
    CStringUnique(r, |s|);
    r
  }

  // ---------------------------------------------------------------------
  // Digits

  predicate IsDigit(b: byte, base: nat) {
    if base == 16 then 48 <= b <= 57 || 65 <= b <= 70 || 97 <= b <= 102
    else 48 <= b as int < 48 + base
  }

  predicate IsBase(base: nat) {
    base == 8 || base == 10 || base == 16
  }

  predicate AllDigits(s: seq<byte>, base: nat) {
    forall i :: 0 <= i < |s| ==> IsDigit(s[i], base)
  }

  function DigitValue(b: byte): nat
    requires IsDigit(b, 16)
  {
    if b <= 57 then b as int - 48 else if b <= 70 then b as int - 55 else b as int - 87
  }

  /** The number a run of digits denotes in `base`. */
  function Value(s: seq<byte>, base: nat): nat
    requires IsBase(base) && AllDigits(s, base)
  {
    if s == [] then 0 else Value(s[..|s| - 1], base) * base + DigitValue(s[|s| - 1])
  }

  /** The longest prefix of `s` made of digits of `base` (where `strtoul` stops). */
  function DigitRun(s: seq<byte>, base: nat): (r: seq<byte>)
    ensures |r| <= |s| && AllDigits(r, base)
  {
    if s == [] || !IsDigit(s[0], base) then [] else [s[0]] + DigitRun(s[1..], base)
  }

  /** The run is a prefix of `s`, and the byte after it, if any, is not a digit. */
  lemma {:induction false} DigitRunPrefix(s: seq<byte>, base: nat)
    ensures DigitRun(s, base) == s[..|DigitRun(s, base)|]
    ensures |DigitRun(s, base)| < |s| ==> !IsDigit(s[|DigitRun(s, base)|], base)
  {
    if s != [] && IsDigit(s[0], base) {
      DigitRunPrefix(s[1..], base);
    }
  }

  lemma {:induction false} DigitRunOfNumeral(d: seq<byte>, rest: seq<byte>, base: nat)
    requires AllDigits(d, base)
    requires rest == [] || !IsDigit(rest[0], base)
    ensures DigitRun(d + rest, base) == d
  {
    if d != [] {
      assert (d + rest)[1..] == d[1..] + rest;
      DigitRunOfNumeral(d[1..], rest, base);
    }
  }

  function DigitChar(d: nat): (b: byte)
    requires d < 10
    ensures IsDigit(b, 10) && DigitValue(b) == d
  {
    (48 + d) as byte
  }

  /** The decimal numeral of `n`, as `%i` prints a value in 0..INT_MAX. */
  function Digits(n: nat): (r: seq<byte>)
    ensures 1 <= |r| && AllDigits(r, 10)
    ensures r[0] == CHAR_0 <==> n == 0
    decreases n
  {
    if n < 10 then [DigitChar(n)] else Digits(n / 10) + [DigitChar(n % 10)]
  }

  lemma {:induction false} DigitsValue(n: nat)
    ensures Value(Digits(n), 10) == n
    decreases n
  {
    if n >= 10 {
      var d := Digits(n);
      assert d[..|d| - 1] == Digits(n / 10);
      DigitsValue(n / 10);
    }
  }

  /** A value below 2^32 is its own low 32 bits. */
  lemma Low32(n: nat)
    requires n < UINT32_MODULUS
    ensures n % UINT32_MODULUS == n
  {
  }

  function Pow10(k: nat): (r: nat)
    ensures r >= 1
  {
    if k == 0 then 1 else 10 * Pow10(k - 1)
  }

  lemma {:induction false} DigitsLength(n: nat, k: nat)
    requires 1 <= k && n < Pow10(k)
    ensures |Digits(n)| <= k
    decreases k
  {
    if n >= 10 {
      assert Pow10(1) == 10;
      assert n / 10 < Pow10(k - 1);
      DigitsLength(n / 10, k - 1);
    }
  }

  /**
   * What `printf`'s `%i` prints for an argument whose value is `n` (a
   * `size_t` or `unsigned` passed where an `int` is read): the low 32 bits
   * of `n`, read as a two's complement `int`.
   */
  function FormatInt(n: nat): (r: seq<byte>)
    ensures 1 <= |r| <= 11
    ensures r[0] != NUL
  {
    FormatBits(n % UINT32_MODULUS)
  }

  /** `%i` applied to the 32 bits `v`: a minus sign and the magnitude when the top bit is set. */
  function FormatBits(v: nat): (r: seq<byte>)
    requires v < UINT32_MODULUS
    ensures 1 <= |r| <= 11
    ensures r[0] != NUL
  {
    Pow10Ten();
    if v <= INT_MAX then
      DigitsLength(v, 10);
      Digits(v)
    else
      DigitsLength(UINT32_MODULUS - v, 10);
      [CHAR_MINUS] + Digits(UINT32_MODULUS - v)
  }

  /** `%i` prints only the low 32 bits of its argument. */
  lemma FormatIntLow32(n: nat)
    ensures FormatInt(n) == FormatInt(n % UINT32_MODULUS)
  {
    assert (n % UINT32_MODULUS) % UINT32_MODULUS == n % UINT32_MODULUS;
  }

  /** A value that fits an `int` prints as its plain decimal numeral. */
  lemma FormatIntSmall(n: nat)
    requires n <= INT_MAX
    ensures FormatInt(n) == Digits(n)
  {
    Low32(n);
  }

  lemma Pow10Ten()
    ensures Pow10(10) == 10000000000
  {
  }

  /** `memset(buf, 0, w)` then `sprintf_s(buf, w, "%i", n)`: needs room for the terminator. */
  function IntField(n: nat, w: nat): (r: seq<byte>)
    requires |FormatInt(n)| < w
    ensures |r| == w && r[0] != NUL
  {
    FormatInt(n) + Zeros(w - |FormatInt(n)|)
  }

  // ---------------------------------------------------------------------
  // Parsing

  predicate IsSpace(b: byte) {
    b == 32 || 9 <= b <= 13
  }

  /** What is left of `s` after the leading white space `atoi` and `strtoul` skip. */
  function SkipSpace(s: seq<byte>): (r: seq<byte>)
    ensures |r| <= |s|
    ensures r != [] ==> !IsSpace(r[0])
  {
    if s != [] && IsSpace(s[0]) then SkipSpace(s[1..]) else s
  }

  /** Skipping removes a run of white space from the front and nothing else. */
  lemma {:induction false} SkipSpaceSuffix(s: seq<byte>)
    ensures SkipSpace(s) == s[|s| - |SkipSpace(s)|..]
    ensures forall i :: 0 <= i < |s| - |SkipSpace(s)| ==> IsSpace(s[i])
  {
    if s != [] && IsSpace(s[0]) {
      SkipSpaceSuffix(s[1..]);
    }
  }

  /** `s` without its leading sign byte, if it has one. */
  function Unsigned(t: seq<byte>): seq<byte> {
    if t != [] && (t[0] == CHAR_PLUS || t[0] == CHAR_MINUS) then t[1..] else t
  }

  /** `atoi(buf)`, read within the buffer: white space, an optional sign, decimal digits. */
  function Atoi(s: seq<byte>): int {
    var t := SkipSpace(s);
    var m: int := Value(DigitRun(Unsigned(t), 10), 10);
    if t != [] && t[0] == CHAR_MINUS then -m else m
  }

  /**
   * The magnitude `strtoul` reads with base 0: `0x`/`0X` followed by a hex
   * digit selects hexadecimal, any other leading `0` octal, else decimal.
   */
  function BaseZeroMagnitude(u: seq<byte>): nat {
    if |u| >= 3 && u[0] == CHAR_0 && (u[1] == CHAR_LOWER_X || u[1] == CHAR_UPPER_X) && IsDigit(u[2], 16) then
      Value(DigitRun(u[2..], 16), 16)
    else if u != [] && u[0] == CHAR_0 then
      Value(DigitRun(u, 8), 8)
    else
      Value(DigitRun(u, 10), 10)
  }

  /**
   * `strtoul(buf, NULL, 0)` with a 32-bit `unsigned long`, read within the
   * buffer: an out-of-range magnitude saturates at ULONG_MAX and a minus
   * sign negates modulo 2^32.
   */
  function Strtoul(s: seq<byte>): (r: nat)
    ensures r <= ULONG_MAX
  {
    var t := SkipSpace(s);
    var m := BaseZeroMagnitude(Unsigned(t));
    if m > ULONG_MAX then ULONG_MAX
    else if t != [] && t[0] == CHAR_MINUS then (if m == 0 then 0 else UINT32_MODULUS - m)
    else m
  }

  /** Reading a decimal numeral that is followed by NUL padding gives back its value. */
  lemma NumeralValue(d: seq<byte>, pad: nat, n: nat)
    requires d == Digits(n)
    ensures DigitRun(d + Zeros(pad), 10) == d
    ensures Value(DigitRun(d + Zeros(pad), 10), 10) == n
  {
    DigitRunOfNumeral(d, Zeros(pad), 10);
    DigitsValue(n);
  }

  /** A numeral without leading zeros, then NULs, read with base 0 is decimal. */
  lemma BaseZeroOfNumeral(n: nat, pad: nat)
    requires n >= 1
    ensures BaseZeroMagnitude(Digits(n) + Zeros(pad)) == n
  {
    var u := Digits(n) + Zeros(pad);
    assert u[0] != CHAR_0;
    NumeralValue(Digits(n), pad, n);
  }

  /** The numeral "0", then NULs, read with base 0 is an octal zero. */
  lemma BaseZeroOfZero(pad: nat)
    ensures BaseZeroMagnitude(Digits(0) + Zeros(pad)) == 0
  {
    var u := Digits(0) + Zeros(pad);
    assert u[0] == CHAR_0;
    assert |u| >= 3 ==> u[1] == NUL;
    DigitRunOfNumeral(Digits(0), Zeros(pad), 8);
    assert DigitRun(u, 8) == [CHAR_0];
  }

  /** Without sign or white space, `strtoul` returns the base-0 magnitude. */
  lemma StrtoulOfUnsigned(u: seq<byte>)
    requires u != [] && !IsSpace(u[0]) && u[0] != CHAR_PLUS && u[0] != CHAR_MINUS
    requires BaseZeroMagnitude(u) <= ULONG_MAX
    ensures Strtoul(u) == BaseZeroMagnitude(u)
  {
    assert SkipSpace(u) == u;
    assert Unsigned(u) == u;
  }

  /** After a minus sign, `strtoul` negates the magnitude modulo 2^32. */
  lemma StrtoulOfNegative(u: seq<byte>, m: nat)
    requires u != [] && u[0] != CHAR_PLUS && u[0] != CHAR_MINUS
    requires BaseZeroMagnitude(u) == m && 1 <= m <= ULONG_MAX
    ensures Strtoul([CHAR_MINUS] + u) == UINT32_MODULUS - m
  {
    var s := [CHAR_MINUS] + u;
    assert SkipSpace(s) == s;
    assert Unsigned(s) == u;
  }

  /** An `%i` field read back with `strtoul(..., 0)` gives the printed value modulo 2^32. */
  lemma StrtoulIntField(n: nat, w: nat)
    requires |FormatInt(n)| < w
    ensures Strtoul(IntField(n, w)) == n % UINT32_MODULUS
  {
    var v := n % UINT32_MODULUS;
    var pad := w - |FormatInt(n)|;
    if v <= INT_MAX {
      var u := Digits(v) + Zeros(pad);
      assert IntField(n, w) == u;
      if v == 0 { BaseZeroOfZero(pad); } else { BaseZeroOfNumeral(v, pad); }
      StrtoulOfUnsigned(u);
    } else {
      var m := UINT32_MODULUS - v;
      var u := Digits(m) + Zeros(pad);
      assert IntField(n, w) == [CHAR_MINUS] + u;
      BaseZeroOfNumeral(m, pad);
      StrtoulOfNegative(u, m);
    }
  }

  /** A run of decimal digits followed by NULs, read with `atoi`, gives the value of the digits. */
  lemma AtoiOfDigits(d: seq<byte>, pad: nat)
    requires d != [] && AllDigits(d, 10)
    ensures Atoi(d + Zeros(pad)) == Value(d, 10)
  {
    var f := d + Zeros(pad);
    assert SkipSpace(f) == f && Unsigned(f) == f by {
      assert f[0] == d[0] && IsDigit(f[0], 10);
    }
    assert DigitRun(f, 10) == d by {
      DigitRunOfNumeral(d, Zeros(pad), 10);
    }
  }

  /** An `%i` field read back with `atoi` gives the printed value while it fits an `int`. */
  lemma AtoiIntField(n: nat, w: nat)
    requires n <= INT_MAX && |FormatInt(n)| < w
    ensures Atoi(IntField(n, w)) == n
  {
    FormatIntSmall(n);
    AtoiOfDigits(Digits(n), w - |Digits(n)|);
    DigitsValue(n);
  }
}
