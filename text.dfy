/**
 * The PHP string built-ins the core relies on (trim, strtolower, strtoupper,
 * empty, str_starts_with, substr) and the way MySQL's utf8mb4_unicode_ci
 * collation compares two names.
 */
module Text {

  /** The characters PHP's trim() strips by default: " \t\n\r\0\x0B". */
  predicate IsTrimmable(c: char) {
    c == ' ' || c == '\t' || c == '\n' || c == '\r' || c == 0 as char || c == 11 as char
  }

  /** ltrim(): drops the leading trimmable characters and nothing else. */
  function TrimLeft(s: string): (r: string)
    ensures |r| <= |s| && r == s[|s| - |r|..]
    ensures |r| > 0 ==> !IsTrimmable(r[0])
    ensures forall i :: 0 <= i < |s| - |r| ==> IsTrimmable(s[i])
  {
    if |s| > 0 && IsTrimmable(s[0]) then TrimLeft(s[1..]) else s
  }

  /** rtrim(): drops the trailing trimmable characters and nothing else. */
  function TrimRight(s: string): (r: string)
    ensures |r| <= |s| && r == s[..|r|]
    ensures |r| > 0 ==> !IsTrimmable(r[|r| - 1])
    ensures forall i :: |r| <= i < |s| ==> IsTrimmable(s[i])
  {
    if |s| > 0 && IsTrimmable(s[|s| - 1]) then TrimRight(s[..|s| - 1]) else s
  }

  /** trim(). */
  function Trim(s: string): string {
    TrimRight(TrimLeft(s))
  }

  /**
   * trim() cuts a run of trimmable characters off each end and keeps the
   * middle as it is.
   */
  lemma TrimIsInnerSlice(s: string)
    ensures var k := |s| - |TrimLeft(s)|;
            && k + |Trim(s)| <= |s|
            && Trim(s) == s[k..k + |Trim(s)|]
            && (forall i :: 0 <= i < k ==> IsTrimmable(s[i]))
            && (forall i :: k + |Trim(s)| <= i < |s| ==> IsTrimmable(s[i]))
  {
    var l := TrimLeft(s);
    var k := |s| - |l|;
    assert l == s[k..];
    assert Trim(s) == TrimRight(l);
    TrimRightTail(l, s, k);
  }

  /** trim() leaves nothing exactly when every character is trimmable. */
  lemma TrimEmptyIffBlank(s: string)
    ensures Trim(s) == "" <==> forall i :: 0 <= i < |s| ==> IsTrimmable(s[i])
  {
    var l := TrimLeft(s);
    var k := |s| - |l|;
    TrimRightTail(l, s, k);
    if |l| > 0 {
      assert l[0] == s[k];
    }
  }

  /** What TrimRight cuts from the left-trimmed suffix `l == s[k..]` are trimmable characters of `s`. */
  lemma TrimRightTail(l: string, s: string, k: int)
    requires 0 <= k <= |s| && l == s[k..]
    ensures |TrimRight(l)| <= |l|
    ensures TrimRight(l) == s[k..k + |TrimRight(l)|]
    ensures forall i :: k + |TrimRight(l)| <= i < |s| ==> IsTrimmable(s[i])
  {
    var r := TrimRight(l);
    forall i | k + |r| <= i < |s|
      ensures IsTrimmable(s[i])
    {
      assert s[i] == l[i - k];
    }
  }

  /** A trimmed string starts and ends with a character trim() keeps. */
  lemma TrimmedEnds(s: string)
    ensures var t := Trim(s); |t| > 0 ==> !IsTrimmable(t[0]) && !IsTrimmable(t[|t| - 1])
  {
    var l := TrimLeft(s);
    var t := TrimRight(l);
    if |t| > 0 {
      assert t[0] == l[0];
    }
  }

  /** trim() is idempotent. */
  lemma TrimIdempotent(s: string)
    ensures Trim(Trim(s)) == Trim(s)
  {
    var t := Trim(s);
    TrimmedEnds(s);
    assert TrimLeft(t) == t;
    assert TrimRight(t) == t;
  }

  /** A string that already starts and ends with kept characters is its own trim(). */
  lemma TrimOfTrimmed(s: string)
    requires |s| > 0 ==> !IsTrimmable(s[0]) && !IsTrimmable(s[|s| - 1])
    ensures Trim(s) == s
  {
    assert TrimLeft(s) == s;
    assert TrimRight(s) == s;
  }

  /** ltrim() skips a leading trimmable character. */
  lemma TrimLeftSkips(c: char, s: string)
    requires IsTrimmable(c)
    ensures TrimLeft([c] + s) == TrimLeft(s)
  {
    assert ([c] + s)[1..] == s;
  }

  /** ltrim() keeps a string that starts with a kept character. */
  lemma TrimLeftKeeps(s: string)
    requires |s| > 0 && !IsTrimmable(s[0])
    ensures TrimLeft(s) == s
  {
  }

  /**
   * The setter hooks trim and then change case; doing it again changes
   * nothing, because case folding neither creates nor removes trimmable characters.
   */
  lemma CaseFoldKeepsTrim(s: string)
    ensures Trim(Upper(Trim(s))) == Upper(Trim(s))
    ensures Trim(Lower(Trim(s))) == Lower(Trim(s))
  {
    TrimmedEnds(s);
    UpperKeepsEnds(Trim(s));
    LowerKeepsEnds(Trim(s));
  }

  /** Case folding maps a kept first and last character to kept characters. */
  lemma UpperKeepsEnds(t: string)
    requires |t| > 0 ==> !IsTrimmable(t[0]) && !IsTrimmable(t[|t| - 1])
    ensures Trim(Upper(t)) == Upper(t)
  {
    var u := Upper(t);
    if |t| > 0 {
      assert u[0] == UpperChar(t[0]) && u[|u| - 1] == UpperChar(t[|t| - 1]);
    }
    TrimOfTrimmed(u);
  }

  lemma LowerKeepsEnds(t: string)
    requires |t| > 0 ==> !IsTrimmable(t[0]) && !IsTrimmable(t[|t| - 1])
    ensures Trim(Lower(t)) == Lower(t)
  {
    var l := Lower(t);
    if |t| > 0 {
      assert l[0] == LowerChar(t[0]) && l[|l| - 1] == LowerChar(t[|t| - 1]);
    }
    TrimOfTrimmed(l);
  }

  function LowerChar(c: char): char {
    if 'A' <= c <= 'Z' then (c as int + 32) as char else c
  }

  function UpperChar(c: char): char {
    if 'a' <= c <= 'z' then (c as int - 32) as char else c
  }

  /** strtolower(): since PHP 8.2 it folds ASCII letters only. */
  function Lower(s: string): (r: string)
    ensures |r| == |s|
  {
    seq(|s|, i requires 0 <= i < |s| => LowerChar(s[i]))
  }

  /** strtoupper(): ASCII letters only. */
  function Upper(s: string): (r: string)
    ensures |r| == |s|
  {
    seq(|s|, i requires 0 <= i < |s| => UpperChar(s[i]))
  }

  /** strtolower() leaves no ASCII capital and touches no other character. */
  lemma LowerFoldsAsciiOnly(s: string)
    ensures forall i :: 0 <= i < |s| ==> !('A' <= Lower(s)[i] <= 'Z')
    ensures forall i :: 0 <= i < |s| && !('A' <= s[i] <= 'Z') ==> Lower(s)[i] == s[i]
  {
  }

  /** strtoupper() leaves no ASCII small letter and touches no other character. */
  lemma UpperFoldsAsciiOnly(s: string)
    ensures forall i :: 0 <= i < |s| ==> !('a' <= Upper(s)[i] <= 'z')
    ensures forall i :: 0 <= i < |s| && !('a' <= s[i] <= 'z') ==> Upper(s)[i] == s[i]
  {
  }

  /** Upper-casing first does not change what a case-insensitive comparison sees. */
  lemma LowerOfUpper(s: string)
    ensures Lower(Upper(s)) == Lower(s)
  {
  }

  lemma UpperIdempotent(s: string)
    ensures Upper(Upper(s)) == Upper(s)
  {
  }

  lemma LowerIdempotent(s: string)
    ensures Lower(Lower(s)) == Lower(s)
  {
  }

  /** Drops trailing blanks, which a PAD SPACE collation ignores. */
  function TrimTrailingSpaces(s: string): (r: string)
    ensures |r| <= |s| && r == s[..|r|]
    ensures |r| > 0 ==> r[|r| - 1] != ' '
    ensures forall i :: |r| <= i < |s| ==> s[i] == ' '
  {
    if |s| > 0 && s[|s| - 1] == ' ' then TrimTrailingSpaces(s[..|s| - 1]) else s
  }

  /**
   * What utf8mb4_unicode_ci compares: letters without case, trailing blanks
   * ignored (PAD SPACE). Two names are equal in a WHERE clause or in a unique
   * index exactly when their keys are equal.
   */
  function CollationKey(s: string): string {
    Lower(TrimTrailingSpaces(s))
  }

  /** Lower-casing a value before comparing it under the collation changes nothing. */
  lemma CollationIgnoresCase(s: string)
    ensures CollationKey(Lower(s)) == CollationKey(s)
    ensures CollationKey(Upper(s)) == CollationKey(s)
  {
    var t := TrimTrailingSpaces(s);
    var lt := TrimTrailingSpaces(Lower(s));
    var ut := TrimTrailingSpaces(Upper(s));
    SpacesSurviveCase(s);
    assert lt == Lower(t);
    assert ut == Upper(t);
    LowerOfUpper(t);
    LowerIdempotent(t);
  }

  lemma {:induction false} SpacesSurviveCase(s: string)
    ensures TrimTrailingSpaces(Lower(s)) == Lower(TrimTrailingSpaces(s))
    ensures TrimTrailingSpaces(Upper(s)) == Upper(TrimTrailingSpaces(s))
  {
    if |s| == 0 {
      assert Lower(s) == [] && Upper(s) == [];
    } else {
      var init := s[..|s| - 1];
      assert Lower(s) == Lower(init) + [LowerChar(s[|s| - 1])];
      assert Upper(s) == Upper(init) + [UpperChar(s[|s| - 1])];
      assert Lower(s)[..|s| - 1] == Lower(init);
      assert Upper(s)[..|s| - 1] == Upper(init);
      if s[|s| - 1] == ' ' {
        SpacesSurviveCase(init);
      }
    }
  }

  /** PHP's empty() on a string: true for "" and for "0", and for nothing else. */
  function PhpEmpty(s: string): (empty: bool)
    ensures empty ==> |s| <= 1
    ensures |s| == 1 ==> (empty <==> s[0] == '0')
  {
    s == "" || s == "0"
  }

  /** str_starts_with(). */
  predicate StartsWith(s: string, prefix: string) {
    |prefix| <= |s| && s[..|prefix|] == prefix
  }

  /** substr($s, $start) for a non-negative start: "" once start passes the end (PHP 8). */
  function SubstrFrom(s: string, start: nat): (r: string)
    ensures start <= |s| ==> s == s[..start] + r
    ensures start > |s| ==> r == ""
  {
    if start <= |s| then s[start..] else ""
  }
}
