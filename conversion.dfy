/** Decimal text parsers used when fields are loaded from delimited text
    (RM_Conversion). Every loop runs over the whole token; the accumulator is
    a uint64 and wraps modulo 2^64 on each multiply and add. */
module Conversion {
  import opened Bytes
  import opened Errors

  const DOT: byte := '.' as int

  predicate IsDigit(c: byte) {
    '0' as int <= c <= '9' as int
  }

  predicate AllDigits(s: seq<byte>) {
    forall i :: 0 <= i < |s| ==> IsDigit(s[i])
  }

  /** What a timestamp token may contain: digits and at most one '.'. */
  predicate ValidDecimal(s: seq<byte>) {
    (forall i :: 0 <= i < |s| ==> IsDigit(s[i]) || s[i] == DOT) && DotCount(s) <= 1
  }

  function DotCount(s: seq<byte>): nat {
    if s == [] then 0 else DotCount(s[..|s| - 1]) + (if s[|s| - 1] == DOT then 1 else 0)
  }

  /** Number of digit characters in s. */
  function DigitCount(s: seq<byte>): nat {
    if s == [] then 0 else DigitCount(s[..|s| - 1]) + (if IsDigit(s[|s| - 1]) then 1 else 0)
  }

  /** The decimal number spelled by the digit characters of s, read left to
      right; every other character is skipped, as both parsers skip it. */
  function DigitsValue(s: seq<byte>): nat {
    if s == [] then 0
    else
      var c := s[|s| - 1];
      if IsDigit(c) then DigitsValue(s[..|s| - 1]) * 10 + (c - '0' as int)
      else DigitsValue(s[..|s| - 1])
  }

  /** The `post_digits` counter of str_to_uint2 after reading s: -1 until
      the first '.', then the number of digits read since it. */
  function PostDigits(s: seq<byte>): int {
    if s == [] then -1
    else
      var p := PostDigits(s[..|s| - 1]);
      var c := s[|s| - 1];
      if IsDigit(c) then (if p >= 0 then p + 1 else p)
      else if c == DOT then (if p < 0 then 0 else p)
      else p
  }

  /** The two fix-up loops of str_to_uint2: scale up (each step wraps like
      `v *= 10` on a uint64) until post == precision, or scale down by
      truncating division. */
  function Rescale(v: nat, post: int, precision: int): nat
    decreases if post < precision then precision - post else post - precision
  {
    if post < precision then Rescale((v * 10) % UINT64_MOD, post + 1, precision)
    else if post > precision then Rescale(v / 10, post - 1, precision)
    else v
  }

  /*** Arithmetic steps ***/

  lemma MulAddMod(x: nat, d: nat, m: nat)
    requires m > 0
    ensures ((x % m) * 10 % m + d) % m == (x * 10 + d) % m
  {
    var q := x / m;
    assert x == m * q + x % m;
    assert x * 10 + d == m * (10 * q) + ((x % m) * 10 + d);
    ModAddMultiple((x % m) * 10 + d, 10 * q, m);
    var y := (x % m) * 10;
    assert y == m * (y / m) + y % m;
    ModAddMultiple(y % m + d, y / m, m);
  }

  lemma ModAddMultiple(b: nat, k: nat, m: nat)
    requires m > 0
    ensures (m * k + b) % m == b % m
  {
    DivModUnique(m * k + b, m, k + b / m, b % m);
  }

  lemma DivDiv10(v: nat, k: nat)
    ensures v / 10 / Pow10(k) == v / Pow10(k + 1)
  {
    var q := v / 10;
    var r := q / Pow10(k);
    assert v == 10 * q + v % 10;
    assert q == Pow10(k) * r + q % Pow10(k);
    assert v == Pow10(k + 1) * r + (10 * (q % Pow10(k)) + v % 10);
    assert 10 * (q % Pow10(k)) + v % 10 < Pow10(k + 1) by {
      MulMono(10, q % Pow10(k), Pow10(k) - 1);
    }
    DivModUnique(v, Pow10(k + 1), r, 10 * (q % Pow10(k)) + v % 10);
  }

  lemma MulMod10(v: nat, k: nat)
    ensures (v % UINT64_MOD) * 10 % UINT64_MOD * Pow10(k) % UINT64_MOD
         == v * Pow10(k + 1) % UINT64_MOD
  {
    var m := UINT64_MOD;
    MulAddMod(v, 0, m);
    var w := v * 10;
    assert (v % m) * 10 % m == w % m;
    MulModLeft(w, Pow10(k), m);
    assert w * Pow10(k) == v * Pow10(k + 1);
  }

  lemma MulModLeft(x: nat, y: nat, m: nat)
    requires m > 0
    ensures (x % m) * y % m == x * y % m
  {
    var q := x / m;
    assert x == m * q + x % m;
    assert x * y == m * (q * y) + (x % m) * y;
    ModAddMultiple((x % m) * y, q * y, m);
  }

  /*** str_to_uint ***/

  /** RM_Conversion::str_to_uint: every character is consumed; a non-digit
      sets RM_ERR_INT_INV but does not stop the accumulation. */
  method StrToUint(s: seq<byte>) returns (v: uint64, err: Err)
    ensures v == DigitsValue(s) % UINT64_MOD
    ensures err == if AllDigits(s) then Ok else IntInv
  {
    v, err := 0, Ok;
    var i := 0;
    while i < |s|
      invariant 0 <= i <= |s|
      invariant v == DigitsValue(s[..i]) % UINT64_MOD
      invariant err == if AllDigits(s[..i]) then Ok else IntInv
    {
      var c := s[i];
      assert s[..i + 1][..i] == s[..i];
      if IsDigit(c) {
        MulAddMod(DigitsValue(s[..i]), c - '0' as int, UINT64_MOD);
        v := (v * 10) % UINT64_MOD;
        v := (v + (c - '0' as int)) % UINT64_MOD;
      } else {
        err := IntInv;
      }
      assert AllDigits(s[..i + 1]) == (AllDigits(s[..i]) && IsDigit(c));
      i := i + 1;
    }
    assert s[..i] == s;
  }

  /*** str_to_uint2 ***/

  /** RM_Conversion::str_to_uint2: like str_to_uint, but one '.' may appear
      and the result is rescaled so that exactly `precision` digits follow
      it. Without a '.', post_digits starts at -1, so the value is scaled by
      10^(precision+1), not 10^precision. */
  method StrToUint2(s: seq<byte>, precision: int) returns (v: uint64, err: Err)
    ensures v == Rescale(DigitsValue(s) % UINT64_MOD, PostDigits(s), precision)
    ensures err == if ValidDecimal(s) then Ok else IntInv
  {
    v, err := 0, Ok;
    var post := -1;
    var i := 0;
    while i < |s|
      invariant 0 <= i <= |s|
      invariant v == DigitsValue(s[..i]) % UINT64_MOD
      invariant post == PostDigits(s[..i])
      invariant err == if ValidDecimal(s[..i]) then Ok else IntInv
    {
      var c := s[i];
      assert s[..i + 1][..i] == s[..i];
      assert ValidDecimal(s[..i + 1]) <==>
        ValidDecimal(s[..i]) && (IsDigit(c) || c == DOT) && DotCount(s[..i + 1]) <= 1;
      PostDigitsSign(s[..i]);
      if IsDigit(c) {
        MulAddMod(DigitsValue(s[..i]), c - '0' as int, UINT64_MOD);
        v := (v * 10) % UINT64_MOD;
        v := (v + (c - '0' as int)) % UINT64_MOD;
        if post >= 0 {
          post := post + 1;
        }
      } else if c == DOT {
        if post < 0 {
          post := 0;
        } else {
          err := IntInv;
        }
      } else {
        err := IntInv;
      }
      i := i + 1;
    }
    assert s[..i] == s;
    ghost var v0 := v;
    ghost var post0 := post;
    while post < precision
      invariant post <= precision || post == post0
      invariant Rescale(v, post, precision) == Rescale(v0, post0, precision)
      decreases precision - post
    {
      v := (v * 10) % UINT64_MOD;
      post := post + 1;
    }
    while post > precision
      invariant post >= precision
      invariant Rescale(v, post, precision) == Rescale(v0, post0, precision)
      decreases post - precision
    {
      v := v / 10;
      post := post - 1;
    }
  }

  /** post_digits is negative exactly while no '.' has been read. */
  lemma {:induction false} PostDigitsSign(s: seq<byte>)
    ensures (PostDigits(s) < 0) == (DotCount(s) == 0)
    ensures PostDigits(s) >= -1
  {
    if s != [] {
      PostDigitsSign(s[..|s| - 1]);
    }
  }

  /*** Properties of the two parsers ***/

  lemma {:induction false} RescaleUp(v: nat, post: int, precision: int)
    requires post <= precision && v < UINT64_MOD
    ensures Rescale(v, post, precision) == v * Pow10(precision - post) % UINT64_MOD
    decreases precision - post
  {
    if post < precision {
      RescaleUp((v * 10) % UINT64_MOD, post + 1, precision);
      var k := precision - post - 1;
      assert (v * 10) % UINT64_MOD == (v % UINT64_MOD) * 10 % UINT64_MOD by {
        MulModLeft(v, 10, UINT64_MOD);
      }
      MulMod10(v, k);
    }
  }

  lemma {:induction false} RescaleDown(v: nat, post: int, precision: int)
    requires post >= precision
    ensures Rescale(v, post, precision) == v / Pow10(post - precision)
    decreases post - precision
  {
    if post > precision {
      RescaleDown(v / 10, post - 1, precision);
      DivDiv10(v, post - 1 - precision);
    }
  }

  /** Appending characters that contain no digit leaves the digits' value
      alone; appending digits shifts it left. */
  lemma {:induction false} DigitsValueAppend(a: seq<byte>, b: seq<byte>)
    ensures DigitsValue(a + b) == DigitsValue(a) * Pow10(DigitCount(b)) + DigitsValue(b)
    ensures DigitCount(a + b) == DigitCount(a) + DigitCount(b)
  {
    if b == [] {
      assert a + b == a;
    } else {
      var b' := b[..|b| - 1];
      assert (a + b)[..|a + b| - 1] == a + b';
      DigitsValueAppend(a, b');
      var k := DigitCount(b');
      if IsDigit(b[|b| - 1]) {
        calc {
          DigitsValue(a + b);
          (DigitsValue(a) * Pow10(k) + DigitsValue(b')) * 10 + (b[|b| - 1] - '0' as int);
          DigitsValue(a) * Pow10(k + 1) + DigitsValue(b);
        }
      }
    }
  }

  /** A token of digits only has its own length as digit count. */
  lemma {:induction false} AllDigitsCount(s: seq<byte>)
    requires AllDigits(s)
    ensures DigitCount(s) == |s| && DotCount(s) == 0 && PostDigits(s) == -1
  {
    if s != [] {
      AllDigitsCount(s[..|s| - 1]);
    }
  }

  /** post_digits after "a.b" with only digits in a and b is |b|. */
  lemma {:induction false} PostDigitsAfterDot(a: seq<byte>, b: seq<byte>)
    requires AllDigits(a) && AllDigits(b)
    ensures PostDigits(a + [DOT] + b) == |b|
    ensures DotCount(a + [DOT] + b) == 1
  {
    if b == [] {
      assert a + [DOT] + b == a + [DOT];
      assert (a + [DOT])[..|a|] == a;
      AllDigitsCount(a);
    } else {
      var b' := b[..|b| - 1];
      assert (a + [DOT] + b)[..|a| + 1 + |b'|] == a + [DOT] + b';
      PostDigitsAfterDot(a, b');
    }
  }

  /** A timestamp token without '.' is scaled by 10^(precision+1). */
  lemma StrToUint2NoDot(s: seq<byte>, precision: int)
    requires AllDigits(s) && precision >= -1
    ensures ValidDecimal(s)
    ensures Rescale(DigitsValue(s) % UINT64_MOD, PostDigits(s), precision)
         == DigitsValue(s) * Pow10(precision + 1) % UINT64_MOD
  {
    AllDigitsCount(s);
    RescaleUp(DigitsValue(s) % UINT64_MOD, -1, precision);
    MulModLeft(DigitsValue(s), Pow10(precision + 1), UINT64_MOD);
  }

  /** "a.b" (digits around one '.', k = |b| fractional digits):
      with k <= precision the digits' value is scaled up by 10^(precision-k),
      with k > precision it is truncated by 10^(k-precision). */
  lemma StrToUint2Fraction(a: seq<byte>, b: seq<byte>, precision: int)
    requires AllDigits(a) && AllDigits(b) && precision >= 0
    ensures ValidDecimal(a + [DOT] + b)
    ensures var s := a + [DOT] + b;
      var n := DigitsValue(a) * Pow10(|b|) + DigitsValue(b);
      Rescale(DigitsValue(s) % UINT64_MOD, PostDigits(s), precision)
        == if |b| <= precision then n * Pow10(precision - |b|) % UINT64_MOD
           else n % UINT64_MOD / Pow10(|b| - precision)
  {
    var s := a + [DOT] + b;
    PostDigitsAfterDot(a, b);
    DigitsValueAppend(a + [DOT], b);
    DigitsValueAppend(a, [DOT]);
    AllDigitsCount(b);
    assert DigitsValue([DOT]) == 0 && DigitCount([DOT]) == 0 by {
      assert [DOT][..0] == [];
    }
    assert s == (a + [DOT]) + b;
    var n := DigitsValue(a) * Pow10(|b|) + DigitsValue(b);
    assert DigitsValue(s) == n;
    forall i | 0 <= i < |s| ensures IsDigit(s[i]) || s[i] == DOT {
      if i < |a| { assert s[i] == a[i]; } else if i > |a| { assert s[i] == b[i - |a| - 1]; }
    }
    if |b| <= precision {
      RescaleUp(n % UINT64_MOD, |b|, precision);
      MulModLeft(n, Pow10(precision - |b|), UINT64_MOD);
    } else {
      RescaleDown(n % UINT64_MOD, |b|, precision);
    }
  }

  /** A second '.' is an error. */
  lemma StrToUint2SecondDot(a: seq<byte>, b: seq<byte>, c: seq<byte>)
    ensures !ValidDecimal(a + [DOT] + b + [DOT] + c)
  {
    var s := a + [DOT] + b + [DOT] + c;
    DotCountAppend(a + [DOT] + b + [DOT], c);
    DotCountAppend(a + [DOT] + b, [DOT]);
    DotCountAppend(a + [DOT], b);
    DotCountAppend(a, [DOT]);
    assert [DOT][..0] == [];
  }

  lemma {:induction false} DotCountAppend(a: seq<byte>, b: seq<byte>)
    ensures DotCount(a + b) == DotCount(a) + DotCount(b)
  {
    if b == [] {
      assert a + b == a;
    } else {
      assert (a + b)[..|a + b| - 1] == a + b[..|b| - 1];
      DotCountAppend(a, b[..|b| - 1]);
    }
  }
}
