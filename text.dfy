/** The string operations the services rely on: case mapping (ASCII letters
    only), substring search, `String.trim()` and `String.isBlank()`. */
module Text {

  function UpperChar(c: char): char
  {
    if 'a' <= c <= 'z' then (c as int - 32) as char else c
  }

  function LowerChar(c: char): char
  {
    if 'A' <= c <= 'Z' then (c as int + 32) as char else c
  }

  /** `toUpperCase()` / SQL `upper(..)`. */
  function Upper(s: string): (r: string)
    ensures |r| == |s|
  {
    seq(|s|, k requires 0 <= k < |s| => UpperChar(s[k]))
  }

  /** `toLowerCase()`. */
  function Lower(s: string): (r: string)
    ensures |r| == |s|
  {
    seq(|s|, k requires 0 <= k < |s| => LowerChar(s[k]))
  }

  /** `sub` occurs in `s` starting at position `i`. */
  predicate OccursAt(s: string, sub: string, i: nat)
  {
    i + |sub| <= |s| && s[i..i + |sub|] == sub
  }

  /** `s.contains(sub)`: `sub` occurs in `s` at some position. */
  function Contains(s: string, sub: string): (r: bool)
    ensures r <==> exists i: nat :: OccursAt(s, sub, i)
  {
    if sub <= s then
      assert OccursAt(s, sub, 0);
      true
    else if |s| == 0 then
      false
    else
      var rest := Contains(s[1..], sub);
      assert forall i: nat :: OccursAt(s[1..], sub, i) <==> OccursAt(s, sub, i + 1);
      assert !OccursAt(s, sub, 0);
      assert forall i: nat :: OccursAt(s, sub, i) ==> i > 0 && OccursAt(s[1..], sub, i - 1);
      rest
  }

  /** Every string contains the empty string. */
  lemma ContainsEmpty(s: string)
    ensures Contains(s, "")
  {
    assert OccursAt(s, "", 0);
  }

  /** Two characters agree after lower-casing exactly when they agree after upper-casing. */
  lemma CaseFoldsAgree(x: char, y: char)
    ensures (LowerChar(x) == LowerChar(y)) == (UpperChar(x) == UpperChar(y))
  {
  }

  /** At a given position, the lower-cased text occurs in the lower-cased
      string exactly when the upper-cased text occurs in the upper-cased one. */
  lemma OccursIgnoringCase(s: string, sub: string, i: nat)
    ensures OccursAt(Lower(s), Lower(sub), i) == OccursAt(Upper(s), Upper(sub), i)
  {
    if i + |sub| <= |s| {
      var lo, up := Lower(s)[i..i + |sub|], Upper(s)[i..i + |sub|];
      forall k | 0 <= k < |sub|
        ensures lo[k] == LowerChar(s[i + k]) && up[k] == UpperChar(s[i + k])
        ensures (lo[k] == Lower(sub)[k]) == (up[k] == Upper(sub)[k])
      {
        CaseFoldsAgree(s[i + k], sub[k]);
      }
      if lo == Lower(sub) {
        assert forall k :: 0 <= k < |sub| ==> lo[k] == Lower(sub)[k];
        assert up == Upper(sub);
      }
      if up == Upper(sub) {
        assert forall k :: 0 <= k < |sub| ==> up[k] == Upper(sub)[k];
        assert lo == Lower(sub);
      }
    }
  }

  /** A case-insensitive `contains` gives the same answer whether both sides
      are lower-cased or upper-cased. */
  lemma ContainsIgnoringCase(s: string, sub: string)
    ensures Contains(Lower(s), Lower(sub)) == Contains(Upper(s), Upper(sub))
  {
    forall i: nat
      ensures OccursAt(Lower(s), Lower(sub), i) == OccursAt(Upper(s), Upper(sub), i)
    {
      OccursIgnoringCase(s, sub, i);
    }
  }

  /** `String.trim()`: strips leading and trailing characters at or below U+0020. */
  function TrimStart(s: string): (r: string)
    ensures |r| <= |s| && r == s[|s| - |r|..]
    ensures r == [] || r[0] > ' '
    ensures forall k :: 0 <= k < |s| - |r| ==> s[k] <= ' '
  {
    if |s| > 0 && s[0] <= ' ' then TrimStart(s[1..]) else s
  }

  function TrimEnd(s: string): (r: string)
    ensures |r| <= |s| && r == s[..|r|]
    ensures r == [] || r[|r| - 1] > ' '
    ensures forall k :: |r| <= k < |s| ==> s[k] <= ' '
  {
    if |s| > 0 && s[|s| - 1] <= ' ' then TrimEnd(s[..|s| - 1]) else s
  }

  /** `String.trim()`: the middle of `s` between a run of leading and a run of
      trailing characters at or below U+0020; empty, or it starts and ends with
      a character above U+0020. */
  function Trim(s: string): (r: string)
    ensures |s| - |TrimStart(s)| + |r| <= |s|
    ensures r == s[|s| - |TrimStart(s)|..][..|r|]
    ensures forall k :: 0 <= k < |s| - |TrimStart(s)| ==> s[k] <= ' '
    ensures forall k :: |s| - |TrimStart(s)| + |r| <= k < |s| ==> s[k] <= ' '
    ensures r == [] || (r[0] > ' ' && r[|r| - 1] > ' ')
  {
    var t := TrimStart(s);
    var r := TrimEnd(t);
    TailOfSuffix(s, t, |r|);
    TrimEndsVisible(t, r);
    r
  }

  /** The characters of a suffix from position `n` on are those of the whole from `|s| - |t| + n` on. */
  lemma TailOfSuffix(s: string, t: string, n: nat)
    requires |t| <= |s| && t == s[|s| - |t|..] && n <= |t|
    requires forall k :: n <= k < |t| ==> t[k] <= ' '
    ensures forall k :: |s| - |t| + n <= k < |s| ==> s[k] <= ' '
  {
    forall k | |s| - |t| + n <= k < |s|
      ensures s[k] <= ' '
    {
      assert s[k] == t[k - (|s| - |t|)];
    }
  }

  /** Trimming the end of a string that starts with a visible character keeps
      that first character and ends with a visible one. */
  lemma TrimEndsVisible(t: string, r: string)
    requires r == TrimEnd(t) && (t == [] || t[0] > ' ')
    ensures r == [] || (r[0] > ' ' && r[|r| - 1] > ' ')
  {
    if r != [] {
      assert r[0] == t[..|r|][0] == t[0];
    }
  }

  /** `trim()` leaves something exactly when some character is above U+0020. */
  lemma {:induction false} TrimNonEmpty(s: string)
    ensures |Trim(s)| > 0 <==> exists k :: 0 <= k < |s| && s[k] > ' '
  {
    var t := TrimStart(s);
    if |Trim(s)| > 0 {
      var k := |s| - |t|;
      assert t[0] == s[k];
      assert Trim(s)[0] == t[0];
    } else {
      assert t == [];
    }
  }

  /** `Character.isWhitespace`: the Unicode space, line and paragraph
      separators other than the no-break spaces U+00A0, U+2007 and U+202F,
      plus U+0009..U+000D and U+001C..U+001F. */
  predicate IsWhitespace(c: char)
  {
    var n := c as int;
    || 0x09 <= n <= 0x0D
    || 0x1C <= n <= 0x20
    || n == 0x1680
    || 0x2000 <= n <= 0x2006
    || 0x2008 <= n <= 0x200A
    || n == 0x2028 || n == 0x2029
    || n == 0x205F || n == 0x3000
  }

  /** `String.isBlank()`: empty, or whitespace only. */
  predicate IsBlank(s: string)
  {
    forall k :: 0 <= k < |s| ==> IsWhitespace(s[k])
  }

  /** The ASCII characters on which `isBlank()` and `trim()` agree: the
      printable ones and the control characters `Character.isWhitespace`
      accepts (tab, line feed, vertical tab, form feed, carriage return and
      the four separators U+001C..U+001F). */
  predicate PlainAscii(c: char)
  {
    0x09 <= c as int <= 0x0D || 0x1C <= c as int <= 0x7E
  }

  /** On such text, `isBlank()` (the older tree's email check) and
      `trim().length() == 0` (the gateway's non-blank check) give the same answer. */
  lemma BlankIffTrimmedEmpty(s: string)
    requires forall k :: 0 <= k < |s| ==> PlainAscii(s[k])
    ensures IsBlank(s) <==> |Trim(s)| == 0
  {
    TrimNonEmpty(s);
    assert forall k :: 0 <= k < |s| ==> (IsWhitespace(s[k]) <==> s[k] <= ' ');
  }

  /** Outside that range they differ: `trim()` strips U+0000, which is not
      whitespace, and keeps U+2003 (em space), which is. */
  lemma BlankAndTrimDiffer()
    ensures !IsBlank("\U{0}") && |Trim("\U{0}")| == 0
    ensures IsBlank("\U{2003}") && |Trim("\U{2003}")| == 1
  {
    assert Trim("\U{0}") == [];
    assert Trim("\U{2003}") == "\U{2003}";
  }
}
