/**
 * The few PHP built-ins and conversions the services and middleware rely on,
 * written out explicitly: scalar values, `trim`, truthiness, loose comparison
 * with `null`, the `(string)` cast and `str_contains`.
 */
module Php {

  /** A scalar as it appears in a record or as a fetched column value. */
  datatype Value = Null | Bool(b: bool) | Int(i: int) | Str(s: string)

  /** The characters `trim` strips by default: space, tab, LF, CR, NUL and vertical tab. */
  predicate IsTrimSpace(c: char)
  {
    c == ' ' || c == '\t' || c == '\n' || c == '\r' || c == '\0' || c == '\U{B}'
  }

  /** `ltrim`: drops the leading run of trim characters. */
  function TrimLeft(s: string): (t: string)
    ensures |t| <= |s| && t == s[|s| - |t|..]
    ensures t == [] || !IsTrimSpace(t[0])
    ensures forall i :: 0 <= i < |s| - |t| ==> IsTrimSpace(s[i])
  {
    if |s| > 0 && IsTrimSpace(s[0]) then TrimLeft(s[1..]) else s
  }

  /** `rtrim`: drops the trailing run of trim characters. */
  function TrimRight(s: string): (t: string)
    ensures |t| <= |s| && t == s[..|t|]
    ensures t == [] || !IsTrimSpace(t[|t| - 1])
    ensures forall i :: |t| <= i < |s| ==> IsTrimSpace(s[i])
  {
    if |s| > 0 && IsTrimSpace(s[|s| - 1]) then TrimRight(s[..|s| - 1]) else s
  }

  function Trim(s: string): string
  {
    TrimRight(TrimLeft(s))
  }

  /** `trim($s) === ''` (and, for two strings, `trim($s) == ''`). */
  predicate IsBlank(s: string)
  {
    Trim(s) == ""
  }

  /** A string is blank exactly when every character of it is one that `trim` strips. */
  lemma BlankIffAllTrimSpace(s: string)
    ensures IsBlank(s) <==> forall i :: 0 <= i < |s| ==> IsTrimSpace(s[i])
  {
    var l := TrimLeft(s);
    if !forall i :: 0 <= i < |s| ==> IsTrimSpace(s[i]) {
      var i :| 0 <= i < |s| && !IsTrimSpace(s[i]);
      assert l[i - (|s| - |l|)] == s[i];
    }
  }

  /** PHP truthiness of a scalar: null, false, 0, "" and "0" are falsy. */
  predicate Truthy(v: Value)
  {
    match v
    case Null => false
    case Bool(b) => b
    case Int(i) => i != 0
    case Str(s) => s != "" && s != "0"
  }

  /**
   * `$v == null` under PHP 8 loose comparison: null and booleans compare as
   * booleans, an integer compares as a boolean, a string compares with "".
   */
  predicate LooseEqualsNull(v: Value)
    ensures LooseEqualsNull(v) ==> !Truthy(v)
    ensures !LooseEqualsNull(v) && !Truthy(v) ==> v == Str("0")
    ensures v == Str("0") ==> !LooseEqualsNull(v)
  {
    match v
    case Null => true
    case Bool(b) => !b
    case Int(i) => i == 0
    case Str(s) => s == ""
  }

  function DigitChar(d: nat): char
    requires d < 10
  {
    "0123456789"[d]
  }

  /** The number a string of decimal digits denotes, most significant digit first. */
  function DigitsValue(s: string): int
  {
    if s == [] then 0 else 10 * DigitsValue(s[..|s| - 1]) + (s[|s| - 1] as int - '0' as int)
  }

  /** Decimal digits of a natural number, without leading zeros. */
  function NatToString(n: nat): (s: string)
    ensures |s| > 0
    ensures forall i :: 0 <= i < |s| ==> '0' <= s[i] <= '9'
    ensures s[0] == '0' ==> n == 0
    ensures DigitsValue(s) == n
    decreases n
  {
    if n < 10 then [DigitChar(n)] else NatToString(n / 10) + [DigitChar(n % 10)]
  }

  /** `(string)` applied to a scalar, as `array_diff_assoc` does to compare values. */
  function StrCast(v: Value): string
  {
    match v
    case Null => ""
    case Bool(b) => if b then "1" else ""
    case Int(i) => if i < 0 then "-" + NatToString(-i) else NatToString(i)
    case Str(s) => s
  }

  /** `$needle` occurs in `$haystack` starting at offset `k`. */
  predicate OccursAt(haystack: string, needle: string, k: nat)
  {
    k + |needle| <= |haystack| && haystack[k..k + |needle|] == needle
  }

  /** `str_contains($haystack, $needle)`; true for the empty needle. */
  predicate Contains(haystack: string, needle: string)
    decreases |haystack|
  {
    needle <= haystack || (|haystack| > 0 && Contains(haystack[1..], needle))
  }

  lemma {:induction false} ContainsIffOccurs(haystack: string, needle: string)
    ensures Contains(haystack, needle) <==> exists k: nat :: OccursAt(haystack, needle, k)
    decreases |haystack|
  {
    if needle <= haystack {
      assert OccursAt(haystack, needle, 0);
    } else if |haystack| == 0 {
      assert forall k: nat :: !OccursAt(haystack, needle, k);
    } else {
      var tail := haystack[1..];
      ContainsIffOccurs(tail, needle);
      forall k: nat ensures OccursAt(haystack, needle, k + 1) <==> OccursAt(tail, needle, k) {
        if k + 1 + |needle| <= |haystack| {
          assert haystack[k + 1..k + 1 + |needle|] == tail[k..k + |needle|];
        }
      }
      assert !OccursAt(haystack, needle, 0);
      if Contains(haystack, needle) {
        var k: nat :| OccursAt(tail, needle, k);
        assert OccursAt(haystack, needle, k + 1);
      } else {
        forall k: nat ensures !OccursAt(haystack, needle, k) {
          if k > 0 {
            assert !OccursAt(tail, needle, k - 1);
          }
        }
      }
    }
  }
}
