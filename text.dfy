/** The string operations the listings code uses: `toLowerCase`, `includes`,
    `localeCompare` (as plain lexicographic order) and the global `parseInt`
    with no radix argument. */
module Text {
  import opened Seqs

  // ---------------------------------------------------------------------
  // toLowerCase, ASCII letters only

  predicate IsUpper(c: char) {
    'A' <= c <= 'Z'
  }

  /** `c` and `d` are the same character up to ASCII letter case. */
  predicate SameLetter(c: char, d: char) {
    c == d || (IsUpper(c) && d as int == c as int + 32) || (IsUpper(d) && c as int == d as int + 32)
  }

  function LowerChar(c: char): char {
    if IsUpper(c) then (c as int + 32) as char else c
  }

  /** `toLowerCase()`: the same text up to letter case, with no capital left.
      Those two facts fix the result: a character's only other case is the
      capital or small letter that pairs with it. */
  function Lower(s: string): (r: string)
    ensures |r| == |s|
    ensures forall i :: 0 <= i < |r| ==> !IsUpper(r[i])
    ensures forall i :: 0 <= i < |s| ==> SameLetter(s[i], r[i])
  {
    seq(|s|, i requires 0 <= i < |s| => LowerChar(s[i]))
  }

  lemma LowerIdempotent(s: string)
    ensures Lower(Lower(s)) == Lower(s)
  {
  }

  /** Texts that differ only in the case of their letters lower alike, which
      is what makes the location search case-insensitive. */
  lemma LowerIgnoresCase(a: string, b: string)
    requires |a| == |b|
    requires forall i :: 0 <= i < |a| ==> SameLetter(a[i], b[i])
    ensures Lower(a) == Lower(b)
  {
  }

  // ---------------------------------------------------------------------
  // String.prototype.includes

  predicate StartsWith(s: string, t: string) {
    |t| <= |s| && s[..|t|] == t
  }

  /** `s.includes(t)`: `t` starts at some position of `s`, tried left to right. */
  predicate Includes(s: string, t: string)
    decreases |s|
  {
    StartsWith(s, t) || (s != [] && Includes(s[1..], t))
  }

  /** `t` occurs in `s` at index `i`. */
  ghost predicate OccursAt(s: string, t: string, i: int) {
    0 <= i && i + |t| <= |s| && s[i..i + |t|] == t
  }

  /** The scan finds `t` exactly when `t` occurs somewhere in `s`. */
  lemma {:induction false} IncludesIff(s: string, t: string)
    ensures Includes(s, t) <==> exists i :: OccursAt(s, t, i)
    decreases |s|
  {
    if StartsWith(s, t) {
      assert OccursAt(s, t, 0);
    } else if s == [] {
      assert forall i :: !OccursAt(s, t, i);
    } else {
      IncludesIff(s[1..], t);
      if Includes(s[1..], t) {
        var i :| OccursAt(s[1..], t, i);
        assert s[1..][i..i + |t|] == s[i + 1..i + 1 + |t|];
        assert OccursAt(s, t, i + 1);
      } else {
        forall i | OccursAt(s, t, i)
          ensures false
        {
          assert i != 0;
          assert s[1..][i - 1..i - 1 + |t|] == s[i..i + |t|];
          assert OccursAt(s[1..], t, i - 1);
        }
      }
    }
  }

  /** Nothing longer than `s` occurs in it. */
  lemma IncludesLonger(s: string, t: string)
    requires |s| < |t|
    ensures !Includes(s, t)
  {
    IncludesIff(s, t);
  }

  // ---------------------------------------------------------------------
  // localeCompare, modelled as lexicographic order on code points

  /** `a.localeCompare(b) <= 0` under plain lexicographic order. */
  predicate StrLe(a: string, b: string)
    decreases |a|
  {
    a == [] || (b != [] && (a[0] < b[0] || (a[0] == b[0] && StrLe(a[1..], b[1..]))))
  }

  lemma {:induction false} StrLeTotal(a: string, b: string)
    ensures StrLe(a, b) || StrLe(b, a)
    decreases |a|
  {
    if a != [] && b != [] && a[0] == b[0] {
      StrLeTotal(a[1..], b[1..]);
    }
  }

  lemma {:induction false} StrLeTrans(a: string, b: string, c: string)
    requires StrLe(a, b) && StrLe(b, c)
    ensures StrLe(a, c)
    decreases |a|
  {
    if a != [] && a[0] == b[0] && b[0] == c[0] {
      StrLeTrans(a[1..], b[1..], c[1..]);
    }
  }

  lemma {:induction false} StrLeAntisymmetric(a: string, b: string)
    requires StrLe(a, b) && StrLe(b, a)
    ensures a == b
    decreases |a|
  {
    if a != [] {
      StrLeAntisymmetric(a[1..], b[1..]);
      assert a == [a[0]] + a[1..] && b == [b[0]] + b[1..];
    }
  }

  // ---------------------------------------------------------------------
  // parseInt(s) with the radix left undefined

  /** WhiteSpace and LineTerminator code points of ECMAScript, removed from the
      front before parsing. */
  predicate IsSpace(c: char) {
    c == '\t' || c == '\n' || c == '\U{B}' || c == '\U{C}' || c == '\r' || c == ' ' ||
    c == '\U{A0}' || c == '\U{1680}' || ('\U{2000}' <= c <= '\U{200A}') ||
    c == '\U{2028}' || c == '\U{2029}' || c == '\U{202F}' || c == '\U{205F}' ||
    c == '\U{3000}' || c == '\U{FEFF}'
  }

  function TrimStart(s: string): (r: string)
    ensures r == [] || !IsSpace(r[0])
    ensures |r| <= |s| && r == s[|s| - |r|..]
  {
    if s != [] && IsSpace(s[0]) then TrimStart(s[1..]) else s
  }

  /** Text that does not start with white space is left as it is. */
  lemma TrimStartKeeps(s: string)
    requires s != [] && !IsSpace(s[0])
    ensures TrimStart(s) == s
  {
  }

  predicate IsDigitOf(c: char, radix: nat) {
    if radix == 16 then '0' <= c <= '9' || 'a' <= c <= 'f' || 'A' <= c <= 'F'
    else '0' <= c <= '9'
  }

  function DigitValue(c: char): nat
    requires IsDigitOf(c, 16)
  {
    if '0' <= c <= '9' then c as int - '0' as int
    else if 'a' <= c <= 'f' then c as int - 'a' as int + 10
    else c as int - 'A' as int + 10
  }

  ghost predicate AllDigits(s: string, radix: nat) {
    forall i :: 0 <= i < |s| ==> IsDigitOf(s[i], radix)
  }

  /** The longest run of radix digits at the front of `s`. */
  function DigitPrefix(s: string, radix: nat): (r: string)
    ensures |r| <= |s| && r == s[..|r|]
    ensures AllDigits(r, radix)
    ensures |r| < |s| ==> !IsDigitOf(s[|r|], radix)
  {
    if s != [] && IsDigitOf(s[0], radix) then [s[0]] + DigitPrefix(s[1..], radix) else []
  }

  /** The mathematical value of a digit string, most significant digit first. */
  function DigitsValue(ds: string, radix: nat): nat
    requires radix == 10 || radix == 16
    requires AllDigits(ds, radix)
  {
    if ds == [] then 0
    else DigitsValue(ds[..|ds| - 1], radix) * radix + DigitValue(ds[|ds| - 1])
  }

  predicate HasHexPrefix(s: string) {
    |s| >= 2 && s[0] == '0' && (s[1] == 'x' || s[1] == 'X')
  }

  /** The value of the digit run at the front of `body`; `None` when there is none. */
  function DigitRun(body: string, radix: nat): Option<nat>
    requires radix == 10 || radix == 16
  {
    var ds := DigitPrefix(body, radix);
    if ds == [] then None else Some(DigitsValue(ds, radix))
  }

  /** The number after the sign: a `0x`/`0X` prefix selects radix 16. */
  function Magnitude(unsigned: string): Option<nat> {
    if HasHexPrefix(unsigned) then DigitRun(unsigned[2..], 16) else DigitRun(unsigned, 10)
  }

  /** `parseInt(s)`: `None` stands for NaN. Leading white space is skipped and
      one sign is read; then the value is that of the longest digit prefix
      that follows, and no digits at all gives NaN. */
  function ParseInt(s: string): Option<int> {
    var t := TrimStart(s);
    if t != [] && t[0] == '-' then
      match Magnitude(t[1..])
      case None => None
      case Some(m) => Some(-(m as int))
    else if t != [] && t[0] == '+' then Magnitude(t[1..])
    else Magnitude(t)
  }

  /** The decimal spelling of `n`, as a number input field holds it. */
  function Decimal(n: nat): (r: string)
    ensures r != [] && AllDigits(r, 10)
  {
    var d := ['0' + (n % 10) as char];
    if n < 10 then d else Decimal(n / 10) + d
  }

  /** Appending a digit to a number appends it to the spelling. */
  lemma DecimalSnoc(n: nat, d: nat)
    requires 0 < n && d < 10
    ensures Decimal(10 * n + d) == Decimal(n) + ['0' + d as char]
  {
    var m := 10 * n + d;
    assert m / 10 == n && m % 10 == d;
  }

  lemma {:induction false} DecimalValue(n: nat)
    ensures DigitsValue(Decimal(n), 10) == n
  {
    var d := ['0' + (n % 10) as char];
    if n >= 10 {
      DecimalValue(n / 10);
      assert (Decimal(n / 10) + d)[..|Decimal(n)| - 1] == Decimal(n / 10);
    }
  }

  lemma {:induction false} DigitPrefixOfDigits(ds: string, rest: string, radix: nat)
    requires AllDigits(ds, radix)
    requires rest == [] || !IsDigitOf(rest[0], radix)
    ensures DigitPrefix(ds + rest, radix) == ds
  {
    if ds == [] {
      assert ds + rest == rest;
    } else {
      assert (ds + rest)[1..] == ds[1..] + rest;
      DigitPrefixOfDigits(ds[1..], rest, radix);
      assert ds == [ds[0]] + ds[1..];
    }
  }

  /** A non-empty run of decimal digits followed by anything that cannot
      continue the number (`.`, `e`, a letter, the end) parses to the value of
      the digits: `"1.5"` reads as 1 and `"4e4"` as 4. */
  lemma ParseIntDecimalPrefix(ds: string, rest: string)
    requires ds != [] && AllDigits(ds, 10)
    requires rest == [] || (!IsDigitOf(rest[0], 10) && rest[0] != 'x' && rest[0] != 'X')
    ensures ParseInt(ds + rest) == Some(DigitsValue(ds, 10))
  {
    var s := ds + rest;
    assert s[0] == ds[0];
    assert !HasHexPrefix(s) by {
      if |ds| >= 2 { assert s[1] == ds[1]; } else if |s| >= 2 { assert s[1] == rest[0]; }
    }
    ParseIntUnsigned(s);
    DigitPrefixOfDigits(ds, rest, 10);
  }

  /** Text starting with a decimal digit and no hexadecimal prefix is read as
      the decimal digit run at its front. */
  lemma ParseIntUnsigned(s: string)
    requires s != [] && IsDigitOf(s[0], 10) && !HasHexPrefix(s)
    ensures ParseInt(s) == DigitRun(s, 10)
  {
    assert !IsSpace(s[0]);
    TrimStartKeeps(s);
  }

  /** The value of a number field holding a natural number is read back. */
  lemma ParseIntDecimal(n: nat)
    ensures ParseInt(Decimal(n)) == Some(n)
  {
    DecimalValue(n);
    ParseIntDecimalPrefix(Decimal(n), []);
    assert Decimal(n) + [] == Decimal(n);
  }

  /** The same with a leading minus sign. */
  lemma ParseIntNegativeDecimal(n: nat)
    ensures ParseInt("-" + Decimal(n)) == Some(-(n as int))
  {
    var ds := Decimal(n);
    var s := "-" + ds;
    assert !HasHexPrefix(ds) by {
      if |ds| >= 2 { assert IsDigitOf(ds[1], 10); }
    }
    ParseIntDecimal(n);
    ParseIntUnsigned(ds);
    TrimStartKeeps(s);
    assert s[1..] == ds;
  }

  /** Text without a digit where the number should start, after an optional
      sign, is NaN. */
  lemma ParseIntNoDigits(s: string)
    requires var t := TrimStart(s);
             var u := if t != [] && (t[0] == '-' || t[0] == '+') then t[1..] else t;
             u == [] || !IsDigitOf(u[0], 10)
    ensures ParseInt(s) == None
  {
  }
}
