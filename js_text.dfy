/**
 * The pieces of JavaScript string and number semantics the editor relies on:
 * `String.prototype.match(/\d+/g)`, `parseInt(s, 16)`, the 32-bit operators `<<`, `>>` and `|`,
 * `Number.prototype.toString(16)`, `padStart`, `toUpperCase` and `trim`.
 * Numbers are modelled as unbounded integers; `None` stands for NaN.
 */
module JsText {
  import opened Wrappers

  // ---------------------------------------------------------------- characters

  predicate IsDigit(c: char) { '0' <= c <= '9' }

  predicate IsHexDigit(c: char) { IsDigit(c) || 'a' <= c <= 'f' || 'A' <= c <= 'F' }

  function HexDigitValue(c: char): (v: nat)
    requires IsHexDigit(c)
    ensures v < 16
  {
    if IsDigit(c) then c as int - '0' as int
    else if 'a' <= c <= 'f' then c as int - 'a' as int + 10
    else c as int - 'A' as int + 10
  }

  /** The lower-case digit `toString(16)` prints for `d`. */
  function HexChar(d: nat): (c: char)
    requires d < 16
    ensures IsHexDigit(c) && HexDigitValue(c) == d && !('A' <= c <= 'Z')
  {
    if d < 10 then ('0' as int + d) as char else ('a' as int + d - 10) as char
  }

  /** The characters `trim` and `parseInt` skip (WhiteSpace and LineTerminator of ECMA-262). */
  predicate IsJsWhiteSpace(c: char) {
    c == ' ' || c == '\t' || c == '\n' || c == '\r' || c == '\U{B}' || c == '\U{C}'
    || c == '\U{A0}' || c == '\U{1680}' || ('\U{2000}' <= c <= '\U{200A}')
    || c == '\U{2028}' || c == '\U{2029}' || c == '\U{202F}' || c == '\U{205F}'
    || c == '\U{3000}' || c == '\U{FEFF}'
  }

  /** The characters `.` in a regular expression does not match. */
  predicate IsLineTerminator(c: char) {
    c == '\n' || c == '\r' || c == '\U{2028}' || c == '\U{2029}'
  }

  // ---------------------------------------------------------------- trim

  function TrimStart(s: string): (r: string)
    ensures |r| <= |s| && r == s[|s| - |r|..]
    ensures r == [] || !IsJsWhiteSpace(r[0])
  {
    if s != [] && IsJsWhiteSpace(s[0]) then TrimStart(s[1..]) else s
  }

  function TrimEnd(s: string): (r: string)
    ensures |r| <= |s| && r == s[..|r|]
    ensures r == [] || !IsJsWhiteSpace(r[|r| - 1])
  {
    if s != [] && IsJsWhiteSpace(s[|s| - 1]) then TrimEnd(s[..|s| - 1]) else s
  }

  /** `s.trim()` */
  function Trim(s: string): string { TrimEnd(TrimStart(s)) }

  // ---------------------------------------------------------------- decimal digit runs

  predicate AllDigits(s: string) { forall i | 0 <= i < |s| :: IsDigit(s[i]) }

  function DecimalValue(s: string): nat
    requires AllDigits(s)
  {
    if s == [] then 0 else 10 * DecimalValue(s[..|s| - 1]) + (s[|s| - 1] as int - '0' as int)
  }

  function LeadingDigitCount(s: string): (n: nat)
    ensures n <= |s|
    ensures forall i | 0 <= i < n :: IsDigit(s[i])
    ensures n == |s| || !IsDigit(s[n])
  {
    if s != [] && IsDigit(s[0]) then 1 + LeadingDigitCount(s[1..]) else 0
  }

  /**
   * The numbers `s.match(/\d+/g)` followed by `parseInt` yields: each maximal run of
   * ASCII digits, read in decimal, left to right (`\d` without the `u` flag is `[0-9]`).
   */
  function DigitRuns(s: string): seq<nat>
    decreases |s|
  {
    if s == [] then []
    else if !IsDigit(s[0]) then DigitRuns(s[1..])
    else
      var n := LeadingDigitCount(s);
      [DecimalValue(s[..n])] + DigitRuns(s[n..])
  }

  /** The decimal spelling browsers use inside `rgb(r, g, b)`. */
  function DecimalString(n: nat): (s: string)
    ensures s != [] && AllDigits(s)
  {
    if n < 10 then [('0' as int + n) as char]
    else DecimalString(n / 10) + [('0' as int + n % 10) as char]
  }

  lemma {:induction false} DecimalStringValue(n: nat)
    ensures DecimalValue(DecimalString(n)) == n
  {
    if n >= 10 {
      var s := DecimalString(n);
      assert s[..|s| - 1] == DecimalString(n / 10);
      DecimalStringValue(n / 10);
    }
  }

  lemma {:induction false} LeadingDigitCountAppend(a: string, b: string)
    requires a != [] && !IsDigit(a[|a| - 1])
    ensures LeadingDigitCount(a + b) == LeadingDigitCount(a)
  {
    if IsDigit(a[0]) {
      assert |a| > 1;
      assert (a + b)[1..] == a[1..] + b;
      LeadingDigitCountAppend(a[1..], b);
    }
  }

  /** Digit runs never straddle a non-digit boundary. */
  lemma {:induction false} DigitRunsAppend(a: string, b: string)
    requires a == [] || !IsDigit(a[|a| - 1])
    ensures DigitRuns(a + b) == DigitRuns(a) + DigitRuns(b)
  {
    if a == [] {
      assert a + b == b;
    } else if !IsDigit(a[0]) {
      assert (a + b)[1..] == a[1..] + b;
      DigitRunsAppend(a[1..], b);
    } else {
      var n := LeadingDigitCount(a);
      LeadingDigitCountAppend(a, b);
      assert n < |a|;
      assert (a + b)[..n] == a[..n];
      assert (a + b)[n..] == a[n..] + b;
      DigitRunsAppend(a[n..], b);
    }
  }

  lemma {:induction false} LeadingDigitCountRun(d: string, b: string)
    requires AllDigits(d)
    requires b == [] || !IsDigit(b[0])
    ensures LeadingDigitCount(d + b) == |d|
  {
    if d == [] {
      assert d + b == b;
    } else {
      assert (d + b)[1..] == d[1..] + b;
      LeadingDigitCountRun(d[1..], b);
    }
  }

  /** A run of digits followed by a non-digit is read as one number. */
  lemma DigitRunsOfRun(d: string, b: string)
    requires d != [] && AllDigits(d)
    requires b == [] || !IsDigit(b[0])
    ensures DigitRuns(d + b) == [DecimalValue(d)] + DigitRuns(b)
  {
    LeadingDigitCountRun(d, b);
    assert (d + b)[..|d|] == d;
    assert (d + b)[|d|..] == b;
  }

  // ---------------------------------------------------------------- hexadecimal

  function Pow16(k: nat): (p: nat)
    ensures p >= 1
  {
    if k == 0 then 1 else 16 * Pow16(k - 1)
  }

  /** `n.toString(16)` for a non-negative integer: lower-case digits, no leading zeros. */
  function HexString(n: nat): (s: string)
    ensures s != []
  {
    if n < 16 then [HexChar(n)] else HexString(n / 16) + [HexChar(n % 16)]
  }

  /** `n.toString(16)` for any integer: a leading `-` for negative values. */
  function NumberToHex(n: int): string {
    if n < 0 then "-" + HexString(-n) else HexString(n)
  }

  /** The `k` lowest hexadecimal digits of `n`, zero padded, lower case. */
  function HexDigits(n: nat, k: nat): (s: string)
    ensures |s| == k
  {
    if k == 0 then [] else HexDigits(n / 16, k - 1) + [HexChar(n % 16)]
  }

  predicate AllHexDigits(s: string) { forall i | 0 <= i < |s| :: IsHexDigit(s[i]) }

  function HexValue(s: string): nat
    requires AllHexDigits(s)
  {
    if s == [] then 0 else 16 * HexValue(s[..|s| - 1]) + HexDigitValue(s[|s| - 1])
  }

  function LeadingHexCount(s: string): (n: nat)
    ensures n <= |s|
    ensures forall i | 0 <= i < n :: IsHexDigit(s[i])
    ensures n == |s| || !IsHexDigit(s[n])
    ensures AllHexDigits(s[..n])
  {
    if s != [] && IsHexDigit(s[0]) then 1 + LeadingHexCount(s[1..]) else 0
  }

  /**
   * `parseInt(s, 16)`: skip leading white space, an optional sign and an optional `0x`/`0X`
   * prefix, then read the longest run of hexadecimal digits; NaN (`None`) when that run is empty.
   */
  function ParseIntHex(s: string): Option<int> {
    var t := TrimStart(s);
    var negative := t != [] && t[0] == '-';
    var u := if t != [] && (t[0] == '-' || t[0] == '+') then t[1..] else t;
    var v := if |u| >= 2 && u[0] == '0' && (u[1] == 'x' || u[1] == 'X') then u[2..] else u;
    var n := LeadingHexCount(v);
    if n == 0 then None
    else
      var m: int := HexValue(v[..n]);
      Some(if negative then -m else m)
  }

  lemma {:induction false} HexDigitsAreHex(n: nat, k: nat)
    ensures AllHexDigits(HexDigits(n, k))
    ensures forall i | 0 <= i < k :: !('A' <= HexDigits(n, k)[i] <= 'Z')
  {
    if k > 0 {
      HexDigitsAreHex(n / 16, k - 1);
    }
  }

  /** Reading back a fixed-width spelling of a number that fits in it. */
  lemma {:induction false} HexDigitsValue(n: nat, k: nat)
    requires n < Pow16(k)
    ensures AllHexDigits(HexDigits(n, k))
    ensures HexValue(HexDigits(n, k)) == n
  {
    HexDigitsAreHex(n, k);
    if k > 0 {
      var s := HexDigits(n, k);
      assert s[..k - 1] == HexDigits(n / 16, k - 1);
      HexDigitsValue(n / 16, k - 1);
    }
  }

  /** A number with exactly `k` hex digits prints as those `k` digits. */
  lemma {:induction false} HexStringFixed(n: nat, k: nat)
    requires k >= 1 && Pow16(k - 1) <= n < Pow16(k)
    ensures HexString(n) == HexDigits(n, k)
  {
    if k == 1 {
      assert n < 16;
      assert HexDigits(n / 16, 0) == [];
    } else {
      assert n >= 16;
      HexStringFixed(n / 16, k - 1);
    }
  }

  /** Splitting a fixed-width hex spelling into a high and a low part. */
  lemma {:induction false} HexDigitsSplit(a: nat, b: nat, j: nat, k: nat)
    requires b < Pow16(k)
    ensures HexDigits(a * Pow16(k) + b, j + k) == HexDigits(a, j) + HexDigits(b, k)
  {
    if k == 0 {
      assert b == 0;
    } else {
      var n := a * Pow16(k) + b;
      var x := a * Pow16(k - 1);
      assert a * Pow16(k) == 16 * x;
      assert n == 16 * (x + b / 16) + b % 16;
      assert n / 16 == x + b / 16 && n % 16 == b % 16;
      HexDigitsSplit(a, b / 16, j, k - 1);
      assert b / 16 < Pow16(k - 1);
    }
  }

  lemma {:induction false} LeadingHexCountAll(s: string)
    requires AllHexDigits(s)
    ensures LeadingHexCount(s) == |s|
    decreases |s|
  {
    if s != [] {
      LeadingHexCountAll(s[1..]);
    }
  }

  /** `parseInt(s, 16)` on a string of hexadecimal digits is its value. */
  lemma ParseIntHexAll(s: string)
    requires s != [] && AllHexDigits(s)
    ensures ParseIntHex(s) == Some(HexValue(s) as int)
  {
    assert IsHexDigit(s[0]);
    assert !IsJsWhiteSpace(s[0]);
    var t := TrimStart(s);
    assert t == s;
    assert !(t[0] == '-' || t[0] == '+');
    assert |s| >= 2 ==> IsHexDigit(s[1]);
    assert !(|t| >= 2 && t[0] == '0' && (t[1] == 'x' || t[1] == 'X'));
    LeadingHexCountAll(s);
    assert s[..|s|] == s;
  }

  /** `parseInt(s, 16)` reads a fixed-width spelling back. */
  lemma ParseIntHexDigits(n: nat, k: nat)
    requires k >= 1 && n < Pow16(k)
    ensures ParseIntHex(HexDigits(n, k)) == Some(n)
  {
    HexDigitsValue(n, k);
    ParseIntHexAll(HexDigits(n, k));
  }

  // ---------------------------------------------------------------- padStart / toUpperCase

  function Repeat(c: char, n: nat): (r: string)
    ensures |r| == n && forall i | 0 <= i < n :: r[i] == c
  {
    if n == 0 then [] else [c] + Repeat(c, n - 1)
  }

  /** `s.padStart(len, c)` for a one-character fill string. */
  function PadStart(s: string, len: nat, c: char): (r: string)
    ensures |s| >= len ==> r == s
    ensures |s| < len ==> |r| == len && r[len - |s|..] == s
    ensures forall i | 0 <= i < |r| - |s| :: r[i] == c
  {
    if |s| >= len then s else Repeat(c, len - |s|) + s
  }

  /** The number of digits `toString(16)` prints. */
  function HexWidth(n: nat): (w: nat)
    ensures w >= 1
  {
    if n < 16 then 1 else 1 + HexWidth(n / 16)
  }

  lemma {:induction false} HexStringWidth(n: nat)
    ensures n < Pow16(HexWidth(n))
    ensures HexString(n) == HexDigits(n, HexWidth(n))
  {
    if n < 16 {
      assert HexDigits(n / 16, 0) == [];
    } else {
      HexStringWidth(n / 16);
    }
  }

  lemma {:induction false} HexWidthBound(n: nat, k: nat)
    requires k >= 1 && n < Pow16(k)
    ensures HexWidth(n) <= k
  {
    if n >= 16 {
      assert Pow16(1) == 16;
      HexWidthBound(n / 16, k - 1);
    }
  }

  /** Padding a hex spelling that has at most `k` digits yields the fixed-width spelling. */
  lemma PadHexString(n: nat, k: nat)
    requires k >= 1 && n < Pow16(k)
    ensures PadStart(HexString(n), k, '0') == HexDigits(n, k)
  {
    HexStringWidth(n);
    HexWidthBound(n, k);
    PadZeros(n, HexWidth(n), k);
  }

  /** Zero digits in front of a `j`-digit spelling. */
  lemma {:induction false} PadZeros(n: nat, j: nat, k: nat)
    requires 1 <= j <= k && n < Pow16(j)
    ensures Repeat('0', k - j) + HexDigits(n, j) == HexDigits(n, k)
  {
    if j < k {
      PadZeros(n, j, k - 1);
      HexDigitsSplit(0, n, 1, k - 1) by { Pow16Mono(j, k - 1); }
      assert HexDigits(0, 1) == ['0'];
      assert Repeat('0', k - j) == ['0'] + Repeat('0', k - 1 - j);
    }
  }

  lemma {:induction false} Pow16Mono(i: nat, j: nat)
    requires i <= j
    ensures Pow16(i) <= Pow16(j)
  {
    if i < j { Pow16Mono(i, j - 1); }
  }

  function UpperChar(c: char): char {
    if 'a' <= c <= 'z' then (c as int - 32) as char else c
  }

  /** `s.toUpperCase()` on the ASCII range. */
  function ToUpperAscii(s: string): (r: string)
    ensures |r| == |s| && forall i | 0 <= i < |s| :: r[i] == UpperChar(s[i])
  {
    seq(|s|, i requires 0 <= i < |s| => UpperChar(s[i]))
  }

  /** `s.replace(c, "")` for a one-character pattern: only the first occurrence goes. */
  function RemoveFirst(s: string, c: char): (r: string)
    ensures c !in s ==> r == s
    ensures c in s ==> |r| == |s| - 1
  {
    if s == [] then [] else if s[0] == c then s[1..] else [s[0]] + RemoveFirst(s[1..], c)
  }

  /** `s.substr(start, len)` for a non-negative start. */
  function Substr(s: string, start: nat, len: nat): (r: string)
    ensures |r| <= len
  {
    if start >= |s| then [] else if start + len >= |s| then s[start..] else s[start..start + len]
  }

  // ---------------------------------------------------------------- 32-bit integer operators

  const TwoTo31: int := 0x8000_0000
  const TwoTo32: int := 0x1_0000_0000

  function Pow2(k: nat): (p: nat)
    ensures p >= 1
  {
    if k == 0 then 1 else 2 * Pow2(k - 1)
  }

  /** ECMA-262 ToUint32. */
  function ToUint32(n: int): (r: nat)
    ensures r < TwoTo32
  {
    n % TwoTo32
  }

  /** ECMA-262 ToInt32: wrap into the signed 32-bit range. */
  function ToInt32(n: int): (r: int)
    ensures -TwoTo31 <= r < TwoTo31
    ensures -TwoTo31 <= n < TwoTo31 ==> r == n
  {
    var m := n % TwoTo32;
    if m >= TwoTo31 then m - TwoTo32 else m
  }

  /** A string argument that may be `null`/`undefined`, used as a condition: `""` is falsy. */
  predicate Truthy(s: Option<string>) { s.Some? && s.value != [] }

  /** A NaN operand of a bitwise operator reads as 0. */
  function NumberOrZero(v: Option<int>): int {
    if v.Some? then v.value else 0
  }

  /** `a << k` */
  function ShiftLeft(a: int, k: nat): int
    requires k < 32
  {
    ToInt32(ToInt32(a) * Pow2(k))
  }

  /** `a >> k`: sign-propagating, so it rounds towards minus infinity. */
  function ShiftRight(a: int, k: nat): int
    requires k < 32
  {
    ToInt32(a) / Pow2(k)
  }

  /** Bitwise or of two naturals, bit by bit. */
  function OrNat(a: nat, b: nat): nat
    decreases a + b
  {
    if a == 0 then b
    else if b == 0 then a
    else 2 * OrNat(a / 2, b / 2) + (if a % 2 == 1 || b % 2 == 1 then 1 else 0)
  }

  /** `a | b` */
  function BitOr(a: int, b: int): int {
    ToInt32(OrNat(ToUint32(a), ToUint32(b)))
  }

  lemma {:induction false} OrNatDisjoint(a: nat, b: nat, k: nat)
    requires b < Pow2(k)
    ensures OrNat(a * Pow2(k), b) == a * Pow2(k) + b
  {
    if k == 0 {
      assert b == 0;
    } else if a == 0 || b == 0 {
    } else {
      var A := a * Pow2(k);
      assert A / 2 == a * Pow2(k - 1) && A % 2 == 0;
      OrNatDisjoint(a, b / 2, k - 1);
    }
  }

  lemma {:induction false} OrNatSymmetric(a: nat, b: nat)
    ensures OrNat(a, b) == OrNat(b, a)
    decreases a + b
  {
    if a != 0 && b != 0 {
      OrNatSymmetric(a / 2, b / 2);
    }
  }

  lemma {:induction false} Pow2Split(k: nat)
    ensures Pow2(k + 1) == 2 * Pow2(k)
  {
  }

  lemma {:induction false} Pow2Mono(i: nat, j: nat)
    requires i <= j
    ensures Pow2(i) <= Pow2(j)
  {
    if i < j { Pow2Mono(i, j - 1); }
  }

  // ---------------------------------------------------------------- Set and indexOf

  predicate NoDuplicates<T(==)>(s: seq<T>) {
    forall i, j | 0 <= i < j < |s| :: s[i] != s[j]
  }

  /** `s.indexOf(x)`: the first position of `x`, or -1. */
  function IndexOf<T(==)>(s: seq<T>, x: T): (k: int)
    ensures -1 <= k < |s|
    ensures k < 0 <==> x !in s
    ensures k >= 0 ==> s[k] == x && forall j | 0 <= j < k :: s[j] != x
    decreases |s|
  {
    if s == [] then -1
    else if s[0] == x then 0
    else
      var k := IndexOf(s[1..], x);
      if k < 0 then -1 else k + 1
  }

  /** `[...new Set(s)]`: each value once, in order of first occurrence. */
  function Unique<T(==,!new)>(s: seq<T>): (u: seq<T>)
    ensures forall x :: x in u <==> x in s
    ensures NoDuplicates(u)
    decreases |s|
  {
    if s == [] then []
    else
      var u := Unique(s[..|s| - 1]);
      var x := s[|s| - 1];
      assert s == s[..|s| - 1] + [x];
      if x in u then u else u + [x]
  }

  /** The values of `Unique(s)` appear in the order in which `s` first shows them. */
  lemma {:induction false} UniqueFirstOccurrence<T(!new)>(s: seq<T>)
    ensures forall i, j | 0 <= i < j < |Unique(s)| :: IndexOf(s, Unique(s)[i]) < IndexOf(s, Unique(s)[j])
    decreases |s|
  {
    if s != [] {
      var t, x := s[..|s| - 1], s[|s| - 1];
      UniqueFirstOccurrence(t);
      assert s == t + [x];
      IndexOfExtend(t, x);
      var u := Unique(s);
      forall i, j | 0 <= i < j < |u|
        ensures IndexOf(s, u[i]) < IndexOf(s, u[j])
      {
        assert u[i] in t;
        if j < |Unique(t)| {
          assert u[j] in t;
        } else {
          assert u[j] == x && x !in t;
        }
      }
    }
  }

  lemma IndexOfExtend<T>(t: seq<T>, x: T)
    ensures forall y | y in t :: IndexOf(t + [x], y) == IndexOf(t, y)
    ensures x !in t ==> IndexOf(t + [x], x) == |t|
  {
    forall y | y in t
      ensures IndexOf(t + [x], y) == IndexOf(t, y)
    {
      var k, m := IndexOf(t, y), IndexOf(t + [x], y);
      assert (t + [x])[k] == y;
      assert m <= k;
      assert t[m] == y;
    }
    if x !in t {
      var m := IndexOf(t + [x], x);
      assert forall j | 0 <= j < |t| :: (t + [x])[j] != x;
      assert (t + [x])[|t|] == x;
    }
  }

  /** Upper-casing commutes with padding by `'0'`, which has no upper case. */
  lemma UpperPad(s: string, n: nat)
    ensures PadStart(ToUpperAscii(s), n, '0') == ToUpperAscii(PadStart(s, n, '0'))
  {
    if |s| < n {
      assert Repeat('0', n - |s|) == ToUpperAscii(Repeat('0', n - |s|));
      assert ToUpperAscii(Repeat('0', n - |s|) + s) == ToUpperAscii(Repeat('0', n - |s|)) + ToUpperAscii(s);
    }
  }
}
