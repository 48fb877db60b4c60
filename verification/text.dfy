/** The handful of Python `str` operations the modelled code relies on,
    restricted to what the code uses: prefix tests, joining, counting,
    substring search, `isdigit`/`int`/`str` on ASCII digits, `chr(ord(c) + 1)`
    and the upper/lower case mapping of the Hungarian alphabet. */
module Text {
  import opened Wrappers

  predicate StartsWith(s: string, prefix: string) {
    |prefix| <= |s| && s[..|prefix|] == prefix
  }

  predicate EndsWith(s: string, suffix: string) {
    |suffix| <= |s| && s[|s| - |suffix|..] == suffix
  }

  predicate OccursAt(s: string, sub: string, i: int) {
    0 <= i && i + |sub| <= |s| && s[i..i + |sub|] == sub
  }

  /** Python `sub in s`. */
  predicate Contains(s: string, sub: string) {
    exists i | 0 <= i <= |s| - |sub| :: OccursAt(s, sub, i)
  }

  /** Index of the first occurrence of `sub` at or after `from`. */
  function FindFrom(s: string, sub: string, from: nat): (r: Option<nat>)
    ensures r.Some? ==> from <= r.value && OccursAt(s, sub, r.value)
    ensures r.Some? ==> forall j | from <= j < r.value :: !OccursAt(s, sub, j)
    ensures r.None? ==> forall j | from <= j :: !OccursAt(s, sub, j)
    decreases |s| - from
  {
    if from + |sub| > |s| then None
    else if s[from..from + |sub|] == sub then Some(from)
    else FindFrom(s, sub, from + 1)
  }

  /** Python `sep.join(parts)`. */
  function Join(parts: seq<string>, sep: string): string {
    if |parts| == 0 then ""
    else if |parts| == 1 then parts[0]
    else parts[0] + sep + Join(parts[1..], sep)
  }

  /** Joining one more piece appends the separator and the piece. */
  lemma {:induction false} JoinSnoc(parts: seq<string>, p: string, sep: string)
    requires |parts| > 0
    ensures Join(parts + [p], sep) == Join(parts, sep) + sep + p
  {
    if |parts| > 1 {
      assert (parts + [p])[1..] == parts[1..] + [p];
      JoinSnoc(parts[1..], p, sep);
    }
  }

  /** Python `s.count(c)` for a single character. */
  function Count(s: string, c: char): nat {
    if |s| == 0 then 0
    else (if s[0] == c then 1 else 0) + Count(s[1..], c)
  }

  lemma CountAppend(a: string, b: string, c: char)
    ensures Count(a + b, c) == Count(a, c) + Count(b, c)
  {
    if |a| > 0 {
      assert (a + b)[1..] == a[1..] + b;
      CountAppend(a[1..], b, c);
    } else {
      assert a + b == b;
    }
  }

  lemma CountZero(s: string, c: char)
    ensures Count(s, c) == 0 <==> forall i | 0 <= i < |s| :: s[i] != c
  {
    if |s| > 0 {
      CountZero(s[1..], c);
      assert forall i | 1 <= i < |s| :: s[i] == s[1..][i - 1];
    }
  }

  /** `a, b = s.split(c)`: unpacking succeeds only when the separator occurs
      exactly once; otherwise Python raises ValueError. */
  function SplitPair(s: string, c: char): (r: Result<(string, string)>)
    ensures r.Ok? <==> Count(s, c) == 1
    ensures r.Ok? ==> s == r.value.0 + [c] + r.value.1
    ensures r.Ok? ==> Count(r.value.0, c) == 0 && Count(r.value.1, c) == 0
    ensures r.Err? ==> r.error == ValueError
  {
    if Count(s, c) != 1 then Err(ValueError)
    else
      var i := SplitPairIndex(s, c);
      Ok((s[..i], s[i + 1..]))
  }

  /** Where the single separator of `s` sits. */
  function SplitPairIndex(s: string, c: char): (i: nat)
    requires Count(s, c) == 1
    ensures i < |s| && s[i] == c
    ensures Count(s[..i], c) == 0 && Count(s[i + 1..], c) == 0
  {
    if s[0] == c then
      assert s[..0] == [];
      0
    else
      var j := SplitPairIndex(s[1..], c);
      assert s[..j + 1] == [s[0]] + s[1..][..j];
      CountAppend([s[0]], s[1..][..j], c);
      assert s[j + 2..] == s[1..][j + 1..];
      j + 1
  }

  // ---------------------------------------------------------------------
  // Digits: `str.isdigit`, `int(s)` and `str(n)` on ASCII decimal digits.

  predicate IsDigit(c: char) {
    '0' <= c <= '9'
  }

  /** Python `s.isdigit()`: non-empty and every character a digit. */
  predicate IsDigits(s: string) {
    |s| > 0 && forall i | 0 <= i < |s| :: IsDigit(s[i])
  }

  function DigitValue(c: char): nat
    requires IsDigit(c)
  {
    c as int - '0' as int
  }

  function DigitChar(d: nat): (c: char)
    requires d < 10
    ensures IsDigit(c) && DigitValue(c) == d
  {
    ('0' as int + d) as char
  }

  /** The number a string of digits denotes (most significant digit first). */
  function DigitsValue(s: string): nat
    requires forall i | 0 <= i < |s| :: IsDigit(s[i])
  {
    if |s| == 0 then 0
    else 10 * DigitsValue(s[..|s| - 1]) + DigitValue(s[|s| - 1])
  }

  /** Python `int(s)`; anything but a run of ASCII digits raises ValueError. */
  function ParseNat(s: string): (r: Result<nat>)
    ensures r.Ok? <==> IsDigits(s)
    ensures r.Ok? ==> r.value == DigitsValue(s)
  {
    if IsDigits(s) then Ok(DigitsValue(s)) else Err(ValueError)
  }

  /** Python `str(n)` for a natural number. */
  function NatToString(n: nat): (s: string)
    ensures IsDigits(s)
  {
    if n < 10 then [DigitChar(n)]
    else NatToString(n / 10) + [DigitChar(n % 10)]
  }

  lemma {:induction false} NatToStringRoundTrip(n: nat)
    ensures ParseNat(NatToString(n)) == Ok(n)
  {
    var s := NatToString(n);
    if n >= 10 {
      NatToStringRoundTrip(n / 10);
      assert s[..|s| - 1] == NatToString(n / 10);
      assert DigitsValue(s) == 10 * (n / 10) + n % 10;
    } else {
      assert DigitsValue(s) == 10 * DigitsValue(s[..0]) + n;
    }
  }

  // ---------------------------------------------------------------------
  // Characters.

  /** Python `chr(ord(c) + 1)`: ValueError past the last code point. Dafny
      characters exclude the surrogate block, so stepping into it is an error
      here as well. */
  function NextChar(c: char): (r: Result<char>)
    ensures r.Ok? ==> r.value as int == c as int + 1
    ensures r.Err? ==> r.error == ValueError
    ensures c as int + 1 < 0xD800 ==> r.Ok?
  {
    var n := c as int + 1;
    if n < 0xD800 || (0xE000 <= n < 0x11_0000) then Ok(n as char) else Err(ValueError)
  }

  /** The uppercase letters `is_uppercase_hun` accepts: ASCII and the accented
      Hungarian capitals. */
  predicate IsUppercaseChar(c: char) {
    ('A' <= c <= 'Z') || c in "ÉÁŐÚŰÖÜÓÍ"
  }

  /** Python `str.lower` on the Hungarian alphabet (other characters kept). */
  function LowerChar(c: char): (r: char)
    ensures IsUppercaseChar(c) ==> !IsUppercaseChar(r)
    ensures !IsUppercaseChar(c) ==> r == c
  {
    if 'a' <= c <= 'z' then c
    else if 'A' <= c <= 'Z' then (c as int + 32) as char
    else if c == 'É' then 'é' else if c == 'Á' then 'á' else if c == 'Ő' then 'ő'
    else if c == 'Ú' then 'ú' else if c == 'Ű' then 'ű' else if c == 'Ö' then 'ö'
    else if c == 'Ü' then 'ü' else if c == 'Ó' then 'ó' else if c == 'Í' then 'í'
    else c
  }

  /** Python `str.upper` on the Hungarian alphabet (other characters kept). */
  function UpperChar(c: char): (r: char)
    ensures IsUppercaseChar(c) ==> r == c
  {
    if 'a' <= c <= 'z' then (c as int - 32) as char
    else if c == 'é' then 'É' else if c == 'á' then 'Á' else if c == 'ő' then 'Ő'
    else if c == 'ú' then 'Ú' else if c == 'ű' then 'Ű' else if c == 'ö' then 'Ö'
    else if c == 'ü' then 'Ü' else if c == 'ó' then 'Ó' else if c == 'í' then 'Í'
    else c
  }

  lemma UpperLowerChar(c: char)
    requires IsUppercaseChar(c)
    ensures UpperChar(LowerChar(c)) == c
  {
  }

  function Lower(s: string): (r: string)
    ensures |r| == |s| && forall i | 0 <= i < |s| :: r[i] == LowerChar(s[i])
  {
    seq(|s|, i requires 0 <= i < |s| => LowerChar(s[i]))
  }

  function Upper(s: string): (r: string)
    ensures |r| == |s| && forall i | 0 <= i < |s| :: r[i] == UpperChar(s[i])
  {
    seq(|s|, i requires 0 <= i < |s| => UpperChar(s[i]))
  }

  /** Python `is_uppercase_hun`: every character is a Hungarian capital (so
      the empty string qualifies). */
  predicate IsUppercaseHun(s: string) {
    forall i | 0 <= i < |s| :: IsUppercaseChar(s[i])
  }

  lemma UpperOfUppercase(s: string)
    requires IsUppercaseHun(s)
    ensures Upper(s) == s
  {
  }
}
