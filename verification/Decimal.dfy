/** Decimal text of 64-bit integers: the C library conversions the plugin relies
    on (`std::to_string`, `strtoll` base 10 as in section 7.22.1.4 of
    ISO/IEC 9899:2011, `std::stoll`) and the plugin's own strict parser. */
module Decimal {
  import opened Prelude

  // ---------- characters and digit strings ----------

  predicate IsDigit(c: char) {
    '0' <= c <= '9'
  }

  /** `isspace` in the C locale: blank, \t, \n, \v, \f, \r. */
  predicate IsSpace(c: char) {
    c == ' ' || '\t' <= c <= '\r'
  }

  predicate All(s: string, p: char -> bool) {
    forall i :: 0 <= i < |s| ==> p(s[i])
  }

  /** The first position from `i` on whose character does not satisfy `p`. */
  function Skip(s: string, p: char -> bool, i: nat): (n: nat)
    requires i <= |s|
    ensures i <= n <= |s| && (n < |s| ==> !p(s[n]))
    ensures forall x :: i <= x < n ==> p(s[x])
    decreases |s| - i
  {
    if i < |s| && p(s[i]) then Skip(s, p, i + 1) else i
  }

  function Magnitude(n: int): nat {
    if n < 0 then -n else n
  }

  function Signed(negative: bool, magnitude: nat): int {
    if negative then 0 - magnitude else magnitude
  }

  /** The number a string of digits denotes. */
  function DigitsValue(s: string): nat
    requires All(s, IsDigit)
  {
    if s == "" then 0
    else DigitsValue(s[..|s| - 1]) * 10 + (s[|s| - 1] as int - '0' as int)
  }

  // ---------- printing ----------

  function DigitChar(d: nat): (c: char)
    requires d < 10
    ensures IsDigit(c) && c as int - '0' as int == d
  {
    ('0' as int + d) as char
  }

  function PrintNat(n: nat): (s: string)
    ensures s != "" && All(s, IsDigit)
  {
    if n < 10 then [DigitChar(n)] else PrintNat(n / 10) + [DigitChar(n % 10)]
  }

  /** `std::to_string` of an integer. */
  function Print(n: int): (s: string)
    ensures s != ""
  {
    if n < 0 then "-" + PrintNat(Magnitude(n)) else PrintNat(n)
  }

  lemma {:induction false} PrintNatValue(n: nat)
    ensures DigitsValue(PrintNat(n)) == n
    ensures PrintNat(n)[0] == '0' ==> n == 0 && PrintNat(n) == "0"
  {
    if n >= 10 {
      PrintNatValue(n / 10);
      var s := PrintNat(n);
      assert s[..|s| - 1] == PrintNat(n / 10);
    } else {
      assert PrintNat(n)[..0] == "";
    }
  }

  // ---------- strtoll, stoll and tryParseInt64 ----------

  /** A `std::string` as `c_str()` shows it: up to the first NUL. */
  function CString(s: string): string {
    s[..Skip(s, (c: char) => c != '\0', 0)]
  }

  datatype Conversion = Conversion(value: Int64, end: nat, rangeError: bool)

  predicate IsSign(c: char) {
    c == '+' || c == '-'
  }

  /** Out-of-range values clamp and set `errno`. */
  function Converted(value: int, end: nat): Conversion {
    if value < INT64_MIN then Conversion(INT64_MIN, end, true)
    else if value > INT64_MAX then Conversion(INT64_MAX, end, true)
    else Conversion(value, end, false)
  }

  /** `strtoll(s, &end, 10)`: white space, an optional sign, digits; `end` is 0
      when there is no digit. */
  function Strtoll(s: string): (r: Conversion)
    ensures r.end <= |s|
  {
    var i := Skip(s, IsSpace, 0);
    var j := if i < |s| && IsSign(s[i]) then i + 1 else i;
    var k := Skip(s, IsDigit, j);
    if k == j then Conversion(0, 0, false)
    else Converted(Signed(s[i] == '-', DigitsValue(s[j..k])), k)
  }

  /** The plugin's `tryParseInt64`: the whole C string must be one conversion. */
  function TryParseInt64(value: string): Option<Int64> {
    if value == "" then None
    else
      var c := CString(value);
      var r := Strtoll(c);
      if r.rangeError || r.end == 0 || r.end != |c| then None else Some(r.value)
  }

  /** `std::stoll`: throws (None) without a digit or out of range, and ignores
      whatever follows the number. */
  function Stoll(value: string): Option<Int64> {
    var r := Strtoll(CString(value));
    if r.end == 0 || r.rangeError then None else Some(r.value)
  }

  // ---------- what the parsers accept ----------

  /** `s` begins with white space up to `i`, then an optional sign up to `j`, then at
      least one digit up to `k`, where the digits end, and they denote `n`. */
  predicate BeginsWith(s: string, i: nat, j: nat, k: nat, n: int) {
    && i <= j < k <= |s|
    && (forall x :: 0 <= x < i ==> IsSpace(s[x]))
    && (j == i || (j == i + 1 && (s[i] == '+' || s[i] == '-')))
    && (forall x :: j <= x < k ==> IsDigit(s[x]))
    && (k < |s| ==> !IsDigit(s[k]))
    && n == Signed(j > i && s[i] == '-', DigitsValue(s[j..k]))
  }

  /** ... and there is nothing else. */
  predicate Spells(s: string, i: nat, j: nat, n: int) {
    BeginsWith(s, i, j, |s|, n)
  }

  lemma StrtollOfPrefix(s: string, i: nat, j: nat, k: nat, n: int)
    requires BeginsWith(s, i, j, k, n)
    ensures Strtoll(s) == Converted(n, k)
  {
    var a := Skip(s, IsSpace, 0);
    assert IsDigit(s[j]) && !IsSpace(s[i]);
    assert a == i;
    var b := Skip(s, IsDigit, j);
    assert b == k;
  }

  /** Where there is a number in front, `strtoll` finds it. */
  lemma PrefixOfStrtoll(s: string) returns (i: nat, j: nat, k: nat, n: int)
    requires Strtoll(s).end != 0
    ensures BeginsWith(s, i, j, k, n) && Strtoll(s) == Converted(n, k)
  {
    i := Skip(s, IsSpace, 0);
    j := if i < |s| && IsSign(s[i]) then i + 1 else i;
    k := Skip(s, IsDigit, j);
    n := Signed(s[i] == '-', DigitsValue(s[j..k]));
  }

  /** The parser accepts exactly the spellings of 64-bit integers, reads each as
      the number it denotes, and rejects everything else: empty or blank text,
      trailing characters, and numbers outside `long long`. */
  lemma ParseAcceptsExactlySpellings(value: string, n: int)
    ensures (-0x8000_0000_0000_0000 <= n <= 0x7FFF_FFFF_FFFF_FFFF && TryParseInt64(value) == Some(n))
            <==> (-0x8000_0000_0000_0000 <= n <= 0x7FFF_FFFF_FFFF_FFFF && exists i, j :: Spells(CString(value), i, j, n))
  {
    var c := CString(value);
    if INT64_MIN <= n <= INT64_MAX {
      if i, j :| Spells(c, i, j, n) {
        StrtollOfPrefix(c, i, j, |c|, n);
      }
      if TryParseInt64(value) == Some(n) {
        var i, j, k, m := PrefixOfStrtoll(c);
        assert Spells(c, i, j, m);
      }
    }
  }

  /** `stoll` reads the number the text begins with, and fails exactly when it
      begins with none or with one outside `long long`. */
  lemma StollReadsPrefix(value: string, n: Int64)
    ensures Stoll(value) == Some(n) <==> exists i, j, k :: BeginsWith(CString(value), i, j, k, n)
  {
    var c := CString(value);
    if i, j, k :| BeginsWith(c, i, j, k, n) {
      StrtollOfPrefix(c, i, j, k, n);
    }
    if Stoll(value) == Some(n) {
      var i, j, k, m := PrefixOfStrtoll(c);
    }
  }

  /** The characters the conversions skip and stop at. */
  lemma SpecialCharacters(text: string, rest: string, c: char)
    requires forall x :: 0 <= x < |text| ==> text[x] != '\0'
    ensures CString(text + ("\0" + rest)) == text && CString(text) == text
    ensures IsSpace(c) <==> c == ' ' || c == '\t' || c == '\n' || c == 11 as char || c == 12 as char || c == '\r'
  {
    var s := text + ("\0" + rest);
    assert s[..|text|] == text && s[|text|] == '\0';
    assert forall x :: 0 <= x < |text| ==> s[x] == text[x];
    var a := Skip(s, (d: char) => d != '\0', 0);
    assert a == |text|;
    var b := Skip(text, (d: char) => d != '\0', 0);
    assert b == |text| && text[..b] == text;
  }

  // ---------- printing and parsing are inverse ----------

  lemma PrintHasNoNul(n: int)
    ensures CString(Print(n)) == Print(n)
  {
    SpecialCharacters(Print(n), "", ' ');
  }

  lemma PrintSpells(n: int)
    ensures Spells(Print(n), 0, if n < 0 then 1 else 0, n)
  {
    PrintNatValue(Magnitude(n));
    var s, j := Print(n), if n < 0 then 1 else 0;
    assert s[j..|s|] == PrintNat(Magnitude(n));
  }

  /** What is printed is read back, by the strict parser and by `stoll`. */
  lemma ParsePrint(n: Int64)
    ensures TryParseInt64(Print(n)) == Some(n) && Stoll(Print(n)) == Some(n)
  {
    PrintHasNoNul(n);
    PrintSpells(n);
    StrtollOfPrefix(Print(n), 0, if n < 0 then 1 else 0, |Print(n)|, n);
  }

  /** `std::to_string` never maps two numbers to one text. */
  lemma {:induction false} PrintInjective(m: int, n: int)
    requires Print(m) == Print(n)
    ensures m == n
  {
    PrintNatValue(Magnitude(m));
    PrintNatValue(Magnitude(n));
    assert m < 0 <==> Print(m)[0] == '-';
    assert n < 0 <==> Print(n)[0] == '-';
    if m < 0 {
      assert PrintNat(Magnitude(m)) == Print(m)[1..] == PrintNat(Magnitude(n));
    }
  }

  /** "0", or digits without a leading zero, with "-" only before a non-zero number. */
  predicate Canonical(s: string) {
    || s == "0"
    || (s != "" && All(s, IsDigit) && s[0] != '0')
    || (|s| > 1 && s[0] == '-' && All(s[1..], IsDigit) && s[1] != '0')
  }

  lemma {:induction false} PrintNatOfValue(s: string)
    requires s != "" && All(s, IsDigit) && (s[0] == '0' ==> s == "0")
    ensures PrintNat(DigitsValue(s)) == s
    ensures s[0] != '0' ==> DigitsValue(s) > 0
  {
    var front, d := s[..|s| - 1], s[|s| - 1] as int - '0' as int;
    if front == "" {
      assert DigitsValue(front) == 0;
      assert s == [DigitChar(d)];
    } else {
      PrintNatOfValue(front);
      assert DigitsValue(s) == DigitsValue(front) * 10 + d;
      assert DigitsValue(s) / 10 == DigitsValue(front) && DigitsValue(s) % 10 == d;
      assert s == front + [DigitChar(d)];
    }
  }

  lemma CanonicalSpells(value: string) returns (j: nat, n: int)
    requires Canonical(value)
    ensures Spells(value, 0, j, n) && Print(n) == value
  {
    j := if value[0] == '-' then 1 else 0;
    var digits := value[j..|value|];
    assert digits == value[j..];
    assert j == 0 ==> digits == value;
    PrintNatOfValue(digits);
    n := Signed(j == 1, DigitsValue(digits));
  }

  lemma CanonicalIsReprinted(value: string)
    requires Canonical(value)
    ensures TryParseInt64(value).Some? ==> Print(TryParseInt64(value).value) == value
  {
    SpecialCharacters(value, "", ' ');
    var j, n := CanonicalSpells(value);
    StrtollOfPrefix(value, 0, j, |value|, n);
  }

  /** Re-printing a parsed text gives a canonical text, and gives the text itself
      exactly when that text was canonical. */
  lemma ReprintIsCanonical(value: string, n: Int64)
    requires TryParseInt64(value) == Some(n)
    ensures Canonical(Print(n))
    ensures Print(n) == value <==> Canonical(value)
  {
    PrintNatValue(Magnitude(n));
    assert n < 0 ==> Print(n)[1..] == PrintNat(Magnitude(n));
    if Canonical(value) {
      CanonicalIsReprinted(value);
    }
  }
}
