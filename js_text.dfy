/**
 * JavaScript string primitives shared by the modelled components: the code-unit
 * view of a string, the white space that `String.prototype.trim` removes
 * (ECMA-262, sections 12.2 and 12.3 and 22.1.3.32), and `startsWith`.
 */
module JsText {
  import opened Wrappers

  /** One UTF-16 code unit: the element of a JavaScript string. */
  newtype CodeUnit = x: int | 0 <= x < 0x1_0000

  /** A JavaScript string as the sequence of its code units. */
  type Text = seq<CodeUnit>

  /** The WhiteSpace and LineTerminator code points, the ones `trim()` strips. */
  predicate IsJsWhitespace(c: int)
  {
    c == 0x09 || c == 0x0A || c == 0x0B || c == 0x0C || c == 0x0D || c == 0x20
    || c == 0xA0 || c == 0x1680 || (0x2000 <= c <= 0x200A) || c == 0x2028
    || c == 0x2029 || c == 0x202F || c == 0x205F || c == 0x3000 || c == 0xFEFF
  }

  predicate IsSpaceUnit(u: CodeUnit) { IsJsWhitespace(u as int) }

  predicate IsSpaceChar(c: char) { IsJsWhitespace(c as int) }

  /** Drops the leading white space. */
  function TrimStart<T>(s: seq<T>, isSpace: T -> bool): (r: seq<T>)
    ensures |r| <= |s| && r == s[|s| - |r|..]
    ensures forall i :: 0 <= i < |s| - |r| ==> isSpace(s[i])
    ensures r != [] ==> !isSpace(r[0])
    decreases |s|
  {
    if s != [] && isSpace(s[0]) then TrimStart(s[1..], isSpace) else s
  }

  /** Drops the trailing white space. */
  function TrimEnd<T>(s: seq<T>, isSpace: T -> bool): (r: seq<T>)
    ensures |r| <= |s| && r == s[..|r|]
    ensures forall i :: |r| <= i < |s| ==> isSpace(s[i])
    ensures r != [] ==> !isSpace(r[|r| - 1])
    decreases |s|
  {
    if s != [] && isSpace(s[|s| - 1]) then TrimEnd(s[..|s| - 1], isSpace) else s
  }

  /** `s.trim()`: both ends stripped of white space. */
  function Trim<T>(s: seq<T>, isSpace: T -> bool): seq<T>
  {
    TrimEnd(TrimStart(s, isSpace), isSpace)
  }

  /** A string trims to the empty string exactly when all of it is white space. */
  lemma TrimEmptyIffBlank<T>(s: seq<T>, isSpace: T -> bool)
    ensures Trim(s, isSpace) == [] <==> forall i :: 0 <= i < |s| ==> isSpace(s[i])
  {
    var t := TrimStart(s, isSpace);
    if Trim(s, isSpace) == [] {
      // TrimEnd leaves nothing only when all of t is white space, and t
      // cannot then start with white space, so t is empty.
      assert t == [];
    } else {
      assert t != [];
      assert !isSpace(t[0]);
      assert t[0] == s[|s| - |t|];
    }
  }

  /** An ASCII hexadecimal digit of either case: `[0-9a-f]` and `[\dA-F]` under the `i` flag. */
  predicate IsHexDigit(u: CodeUnit)
  {
    48 <= u <= 57 || 65 <= u <= 70 || 97 <= u <= 102
  }

  /** `s.startsWith(prefix)`. */
  predicate StartsWith<T(==)>(s: seq<T>, prefix: seq<T>)
  {
    |prefix| <= |s| && s[..|prefix|] == prefix
  }

  /** The length of the longest prefix of `s` whose elements all satisfy `keep` (a greedy `[...]*` run). */
  function SpanLength<T>(s: seq<T>, keep: T -> bool): (n: nat)
    ensures n <= |s|
    ensures forall i :: 0 <= i < n ==> keep(s[i])
    ensures n < |s| ==> !keep(s[n])
  {
    if s == [] || !keep(s[0]) then 0 else 1 + SpanLength(s[1..], keep)
  }

  /** A run of kept elements ended by one that is not (or by the end) is exactly the span. */
  lemma {:induction false} SpanLengthIs<T>(s: seq<T>, keep: T -> bool, n: nat)
    requires n <= |s|
    requires forall i :: 0 <= i < n ==> keep(s[i])
    requires n < |s| ==> !keep(s[n])
    ensures SpanLength(s, keep) == n
  {
    if n > 0 {
      assert keep(s[0]);
      assert forall i :: 0 <= i < n - 1 ==> s[1..][i] == s[i + 1];
      SpanLengthIs(s[1..], keep, n - 1);
    }
  }

  /** `pat` occurs in `s` at position `j`. */
  predicate OccursAt<T(==)>(s: seq<T>, pat: seq<T>, j: int)
  {
    0 <= j && j + |pat| <= |s| && s[j..j + |pat|] == pat
  }

  /** `s.indexOf(pat)`: the first position where `pat` occurs, if any. */
  function IndexOf<T(==)>(s: seq<T>, pat: seq<T>): (r: Option<nat>)
    ensures r.Some? ==> OccursAt(s, pat, r.value) && forall j :: 0 <= j < r.value ==> !OccursAt(s, pat, j)
    ensures r.None? ==> forall j :: !OccursAt(s, pat, j)
  {
    if |s| < |pat| then None
    else if s[..|pat|] == pat then Some(0)
    else
      OccursInTail(s, pat);
      match IndexOf(s[1..], pat)
      case None => None
      case Some(k) => Some(k + 1)
  }

  lemma OccursInTail<T>(s: seq<T>, pat: seq<T>)
    requires s != []
    ensures forall j :: 1 <= j ==> (OccursAt(s, pat, j) <==> OccursAt(s[1..], pat, j - 1))
  {
    forall j | 1 <= j ensures OccursAt(s, pat, j) <==> OccursAt(s[1..], pat, j - 1) {
      if j + |pat| <= |s| {
        var a, b := s[1..][j - 1..j - 1 + |pat|], s[j..j + |pat|];
        assert |a| == |b|;
        forall i | 0 <= i < |a| ensures a[i] == b[i] { }
        assert a == b;
      }
    }
  }
}
