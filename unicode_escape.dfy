/**
 * `unicodeToChar` of the chat reader: every `\uXXXX` escape written out in an
 * answer fragment is replaced by the code unit it names.
 */
module UnicodeEscape {
  import opened JsText

  const Backslash: CodeUnit := 92
  const LowerU: CodeUnit := 117  // 'u'
  const UpperU: CodeUnit := 85   // 'U'

  function HexDigitValue(u: CodeUnit): (v: nat)
    requires IsHexDigit(u)
    ensures v < 16
  {
    if u <= 57 then (u - 48) as nat else if u <= 70 then (u - 55) as nat else (u - 87) as nat
  }

  /** The lower-case digit `parseInt(_, 16)` reads back as `v`. */
  function HexDigit(v: nat): (u: CodeUnit)
    requires v < 16
    ensures IsHexDigit(u) && HexDigitValue(u) == v
  {
    if v < 10 then (48 + v) as CodeUnit else (87 + v) as CodeUnit
  }

  /** The regex `\\u[\dA-F]{4}` with the `i` flag matches at the start of `s`. */
  predicate EscapeAt(s: Text)
  {
    |s| >= 6 && s[0] == Backslash && (s[1] == LowerU || s[1] == UpperU)
    && IsHexDigit(s[2]) && IsHexDigit(s[3]) && IsHexDigit(s[4]) && IsHexDigit(s[5])
  }

  /**
   * `String.fromCharCode(parseInt(match.replace(/\\u/g, ''), 16))` for a match
   * at the start of `s`. The inner replace is case-sensitive: for `\U` the
   * backslash stays, `parseInt` gives NaN and `fromCharCode(NaN)` is U+0000.
   */
  function EscapeUnit(s: Text): CodeUnit
    requires EscapeAt(s)
  {
    if s[1] == LowerU then
      (HexDigitValue(s[2]) * 4096 + HexDigitValue(s[3]) * 256
       + HexDigitValue(s[4]) * 16 + HexDigitValue(s[5])) as CodeUnit
    else 0
  }

  /**
   * `text.replace(/\\u[\dA-F]{4}/gi, ...)`: scanning left to right, each match
   * becomes one code unit and the scan resumes after it; everything else is
   * copied. The result is never longer than the input.
   */
  function UnicodeToChar(s: Text): (r: Text)
    ensures |r| <= |s|
    decreases |s|
  {
    if s == [] then []
    else if EscapeAt(s) then [EscapeUnit(s)] + UnicodeToChar(s[6..])
    else [s[0]] + UnicodeToChar(s[1..])
  }

  /** Text without a backslash has no escape and comes back unchanged. */
  lemma {:induction false} NoBackslashUnchanged(s: Text)
    requires Backslash !in s
    ensures UnicodeToChar(s) == s
    decreases |s|
  {
    if s != [] {
      assert s[0] != Backslash;
      assert Backslash !in s[1..] by {
        forall k | 0 <= k < |s| - 1 ensures s[1..][k] != Backslash {
          assert s[1..][k] == s[k + 1];
        }
      }
      NoBackslashUnchanged(s[1..]);
      assert s == [s[0]] + s[1..];
    }
  }

  /** `\uXXXX` with four lower-case digits naming the code unit `u`. */
  function Escape(u: CodeUnit): (e: Text)
    ensures |e| == 6
  {
    var n := u as nat;
    [Backslash, LowerU, HexDigit(n / 4096), HexDigit(n % 4096 / 256),
     HexDigit(n % 256 / 16), HexDigit(n % 16)]
  }

  /** Every code unit of `t` written out as an escape. */
  function EscapeAll(t: Text): Text
  {
    if t == [] then [] else Escape(t[0]) + EscapeAll(t[1..])
  }

  lemma ModUnique256(n: nat, q: nat, r: nat)
    requires r < 256 && n == q * 256 + r
    ensures n % 256 == r
  {
  }

  lemma ModUnique16(n: nat, q: nat, r: nat)
    requires r < 16 && n == q * 16 + r
    ensures n % 16 == r
  {
  }

  lemma DigitsRecompose(n: nat)
    ensures n / 4096 * 4096 + n % 4096 / 256 * 256 + n % 256 / 16 * 16 + n % 16 == n
  {
    var a, r1 := n / 4096, n % 4096;
    var b, r2 := r1 / 256, r1 % 256;
    var c, d := r2 / 16, r2 % 16;
    assert n == a * 4096 + r1;
    assert r1 == b * 256 + r2;
    assert r2 == c * 16 + d;
    assert n == (a * 16 + b) * 256 + r2;
    ModUnique256(n, a * 16 + b, r2);
    assert n == (a * 256 + b * 16 + c) * 16 + d;
    ModUnique16(n, a * 256 + b * 16 + c, d);
  }

  lemma EscapeUnitOfEscape(u: CodeUnit, rest: Text)
    ensures EscapeAt(Escape(u) + rest) && EscapeUnit(Escape(u) + rest) == u
  {
    var s := Escape(u) + rest;
    var n := u as nat;
    assert s[..6] == Escape(u);
    assert HexDigitValue(s[2]) == n / 4096;
    assert HexDigitValue(s[3]) == n % 4096 / 256;
    assert HexDigitValue(s[4]) == n % 256 / 16;
    assert HexDigitValue(s[5]) == n % 16;
    DigitsRecompose(n);
  }

  lemma EscapeDecodes(u: CodeUnit, rest: Text)
    ensures UnicodeToChar(Escape(u) + rest) == [u] + UnicodeToChar(rest)
  {
    var s := Escape(u) + rest;
    EscapeUnitOfEscape(u, rest);
    assert s[6..] == rest;
  }

  /** Escaping every code unit and decoding gives the text back. */
  lemma {:induction false} DecodeEscapeAll(t: Text)
    ensures UnicodeToChar(EscapeAll(t)) == t
  {
    if t != [] {
      EscapeDecodes(t[0], EscapeAll(t[1..]));
      DecodeEscapeAll(t[1..]);
      assert t == [t[0]] + t[1..];
    }
  }

  /**
   * An escape written with a capital `U` matches the case-insensitive regex
   * but decodes to U+0000, not to the code unit its digits name.
   */
  lemma UpperEscapeIsNul(digits: Text, rest: Text)
    requires |digits| == 4 && forall k :: 0 <= k < 4 ==> IsHexDigit(digits[k])
    ensures UnicodeToChar([Backslash, UpperU] + digits + rest) == [0] + UnicodeToChar(rest)
  {
    var s := [Backslash, UpperU] + digits + rest;
    assert s[2] == digits[0] && s[3] == digits[1] && s[4] == digits[2] && s[5] == digits[3];
    assert s[6..] == rest;
  }
  /** Four hex digits, either case, read by `parseInt(_, 16)`. */
  function HexValue(d: Text): (v: nat)
    requires |d| == 4 && forall k :: 0 <= k < 4 ==> IsHexDigit(d[k])
    ensures v < 0x1_0000
    ensures v % 16 == HexDigitValue(d[3]) && v / 4096 == HexDigitValue(d[0])
  {
    HexDigitValue(d[0]) * 4096 + HexDigitValue(d[1]) * 256 + HexDigitValue(d[2]) * 16 + HexDigitValue(d[3])
  }

  /**
   * A `\u` escape with any four hex digits, upper or lower case, decodes to
   * the code unit they name, and the scan goes on after the sixth unit.
   */
  lemma HexEscapeDecodes(d: Text, rest: Text)
    requires |d| == 4 && forall k :: 0 <= k < 4 ==> IsHexDigit(d[k])
    ensures UnicodeToChar([Backslash, LowerU] + d + rest) == [HexValue(d) as CodeUnit] + UnicodeToChar(rest)
  {
    var s := [Backslash, LowerU] + d + rest;
    assert s[2] == d[0] && s[3] == d[1] && s[4] == d[2] && s[5] == d[3];
    assert s[6..] == rest;
  }

  /** Where no escape starts, the code unit is copied and the scan moves on by one. */
  lemma NonEscapeKept(s: Text)
    requires s != [] && !EscapeAt(s)
    ensures UnicodeToChar(s) == [s[0]] + UnicodeToChar(s[1..])
  {
  }

  /** A stretch without a backslash is copied through whatever follows it. */
  lemma {:induction false} PlainTextKept(p: Text, rest: Text)
    requires Backslash !in p
    ensures UnicodeToChar(p + rest) == p + UnicodeToChar(rest)
    decreases |p|
  {
    if p != [] {
      var s := p + rest;
      assert s[0] == p[0] && s[1..] == p[1..] + rest;
      assert Backslash !in p[1..] by {
        forall k | 0 <= k < |p| - 1 ensures p[1..][k] != Backslash {
          assert p[1..][k] == p[k + 1];
        }
      }
      assert p[0] in p;
      assert !EscapeAt(s);
      assert UnicodeToChar(s) == [p[0]] + UnicodeToChar(p[1..] + rest);
      PlainTextKept(p[1..], rest);
      assert p == [p[0]] + p[1..];
      assert [p[0]] + (p[1..] + UnicodeToChar(rest)) == p + UnicodeToChar(rest);
    } else {
      assert p + rest == rest;
    }
  }
}
