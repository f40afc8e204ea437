/**
 * The Python `str` operations the handlers rely on, over `string` (= `seq<char>`):
 * `strip()`, `split(sep)`, `sep.join(parts)`, `sub in s`, `endswith`, `lstrip(c)`,
 * `lower()`, `isdigit()`, `int(...)`, `float(...)` and the decimal rendering an
 * f-string gives an integer.
 */
module Text {
  import opened Wrappers

  // ---------------------------------------------------------------------------
  // Whitespace and strip()
  // ---------------------------------------------------------------------------

  /** Python's `str.isspace` on one character. */
  predicate IsSpace(c: char) {
    c == ' ' || '\t' <= c <= '\r' || '\U{1C}' <= c <= '\U{1F}' || c == '\U{85}' || c == '\U{A0}'
    || c == '\U{1680}' || '\U{2000}' <= c <= '\U{200A}' || c == '\U{2028}' || c == '\U{2029}'
    || c == '\U{202F}' || c == '\U{205F}' || c == '\U{3000}'
  }

  /** The number of whitespace characters `s` starts with. */
  function LeadingSpaces(s: string): (n: nat)
    ensures n <= |s|
    ensures forall k :: 0 <= k < n ==> IsSpace(s[k])
    ensures n < |s| ==> !IsSpace(s[n])
  {
    if |s| == 0 || !IsSpace(s[0]) then 0 else 1 + LeadingSpaces(s[1..])
  }

  /** The number of whitespace characters `s` ends with. */
  function TrailingSpaces(s: string): (n: nat)
    ensures n <= |s|
    ensures forall k :: |s| - n <= k < |s| ==> IsSpace(s[k])
    ensures n < |s| ==> !IsSpace(s[|s| - 1 - n])
  {
    if |s| == 0 || !IsSpace(s[|s| - 1]) then 0 else 1 + TrailingSpaces(s[..|s| - 1])
  }

  /** Python's `s.strip()`: `s` without its leading and trailing whitespace. */
  function Strip(s: string): (r: string)
    ensures LeadingSpaces(s) + |r| <= |s| && r == s[LeadingSpaces(s)..LeadingSpaces(s) + |r|]
    ensures forall k :: LeadingSpaces(s) + |r| <= k < |s| ==> IsSpace(s[k])
    ensures r != [] ==> !IsSpace(r[0]) && !IsSpace(r[|r| - 1])
  {
    var a := LeadingSpaces(s);
    if a == |s| then [] else s[a..|s| - TrailingSpaces(s)]
  }

  /** Stripping a string that has no whitespace at its ends, followed by whitespace, gives that string back. */
  lemma StripPadded(s: string, w: string)
    requires s != [] && !IsSpace(s[0]) && !IsSpace(s[|s| - 1])
    requires forall k :: 0 <= k < |w| ==> IsSpace(w[k])
    ensures Strip(s + w) == s
  {
    var u := s + w;
    assert u[0] == s[0];
    assert LeadingSpaces(u) == 0;
    var n := TrailingSpaces(u);
    assert !IsSpace(u[|s| - 1]);
    assert forall k :: |s| <= k < |u| ==> IsSpace(u[k]);
    assert n == |w|;
    assert u[..|s|] == s;
  }

  // ---------------------------------------------------------------------------
  // Digits, isdigit(), int() and decimal rendering
  // ---------------------------------------------------------------------------

  predicate IsDigit(c: char) {
    '0' <= c <= '9'
  }

  predicate AllDigits(s: string) {
    forall k :: 0 <= k < |s| ==> IsDigit(s[k])
  }

  /** Python's `s.isdigit()` on ASCII text: non-empty and made of digits only. */
  predicate IsDigits(s: string) {
    |s| > 0 && AllDigits(s)
  }

  /** The value of a string of decimal digits (0 for the empty string). */
  function DigitsValue(s: string): nat
    requires AllDigits(s)
  {
    if |s| == 0 then 0 else 10 * DigitsValue(s[..|s| - 1]) + (s[|s| - 1] as int - '0' as int)
  }

  /** The decimal rendering of a natural number, as `str(n)` or an f-string gives it. */
  function NatToString(n: nat): (r: string)
    ensures IsDigits(r)
    ensures DigitsValue(r) == n
  {
    if n < 10 then [('0' as int + n) as char]
    else
      var r := NatToString(n / 10) + [('0' as int + n % 10) as char];
      assert r[..|r| - 1] == NatToString(n / 10);
      r
  }

  /** Distinct numbers have distinct renderings. */
  lemma NatToStringInjective(m: nat, n: nat)
    requires NatToString(m) == NatToString(n)
    ensures m == n
  {
  }

  /**
   * Python's `int(tok)` in base 10 on a token that holds no whitespace and no
   * underscore: an optional sign followed by at least one ASCII digit.
   */
  function ParseInt(tok: string): (r: Option<int>)
    ensures r.Some? <==> IsDigits(tok) || (|tok| > 1 && (tok[0] == '-' || tok[0] == '+') && IsDigits(tok[1..]))
    ensures r.Some? && IsDigits(tok) ==> r.value == DigitsValue(tok)
    ensures r.Some? && tok[0] == '-' ==> r.value == -(DigitsValue(tok[1..]) as int)
    ensures r.Some? && tok[0] == '+' ==> r.value == DigitsValue(tok[1..])
  {
    if IsDigits(tok) then Some(DigitsValue(tok))
    else if |tok| > 1 && tok[0] == '-' && IsDigits(tok[1..]) then Some(-(DigitsValue(tok[1..]) as int))
    else if |tok| > 1 && tok[0] == '+' && IsDigits(tok[1..]) then Some(DigitsValue(tok[1..]))
    else None
  }

  function Pow10(n: nat): (p: nat)
    ensures p >= 1
  {
    if n == 0 then 1 else 10 * Pow10(n - 1)
  }

  /** `s` is a literal with its point at `i`: `ddd.`, `.ddd` or `ddd.ddd`, with at least one digit. */
  predicate PointLiteral(s: string, i: int) {
    0 <= i < |s| && s[i] == '.' && |s| > 1 && AllDigits(s[..i]) && AllDigits(s[i + 1..])
  }

  /** The value of such a literal: the whole part plus the fraction over a power of ten. */
  function PointValue(s: string, i: int): real
    requires PointLiteral(s, i)
  {
    DigitsValue(s[..i]) as real + DigitsValue(s[i + 1..]) as real / Pow10(|s| - i - 1) as real
  }

  /** A decimal literal without sign: digits, possibly with one point among them. */
  predicate DecimalLiteral(s: string) {
    IsDigits(s) || exists i :: 0 <= i < |s| && PointLiteral(s, i)
  }

  /** The point of such a literal is the first "." in it. */
  lemma PointIsFirst(s: string, i: int)
    requires PointLiteral(s, i)
    ensures Find(s, ".") == i
  {
    FindIsFirst(s, ".");
    assert s[i..i + 1] == ".";
    assert OccursAt(s, ".", i);
    forall j | 0 <= j < i
      ensures !OccursAt(s, ".", j)
    {
      assert s[..i][j] == s[j];
    }
  }

  /**
   * A decimal literal without sign: `ddd`, `ddd.`, `.ddd` or `ddd.ddd`. It is
   * accepted exactly when it is one of these, and its value is the one the
   * digits spell.
   */
  function ParseUnsignedDecimal(s: string): (r: Option<real>)
    ensures r.Some? <==> DecimalLiteral(s)
    ensures r.Some? ==> r.value >= 0.0
    ensures IsDigits(s) ==> r == Some(DigitsValue(s) as real)
    ensures forall i :: PointLiteral(s, i) ==> r == Some(PointValue(s, i))
  {
    if IsDigits(s) then Some(DigitsValue(s) as real)
    else
      var dot := Find(s, ".");
      if dot < 0 then
        assert forall i :: PointLiteral(s, i) ==> Find(s, ".") == i by {
          forall i | PointLiteral(s, i) ensures Find(s, ".") == i { PointIsFirst(s, i); }
        }
        None
      else
        var whole, frac := s[..dot], s[dot + 1..];
        assert forall i :: PointLiteral(s, i) ==> i == dot by {
          forall i | PointLiteral(s, i) ensures i == dot { PointIsFirst(s, i); }
        }
        if AllDigits(whole) && AllDigits(frac) && (|whole| > 0 || |frac| > 0) then
          FindIsFirst(s, ".");
          assert s[dot..dot + 1] == ".";
          assert PointLiteral(s, dot);
          Some(DigitsValue(whole) as real + DigitsValue(frac) as real / Pow10(|frac|) as real)
        else None
  }

  /** A token that starts with a sign is not itself an unsigned literal. */
  lemma SignedNotLiteral(tok: string)
    requires |tok| > 0 && (tok[0] == '-' || tok[0] == '+')
    ensures !DecimalLiteral(tok)
    ensures forall i :: !PointLiteral(tok, i)
  {
    forall i | PointLiteral(tok, i)
      ensures false
    {
      if i > 0 {
        assert tok[..i][0] == tok[0];
      }
    }
  }

  /**
   * Python's `float(tok)` on plain decimal literals with an optional sign: it
   * accepts exactly a literal, or a sign followed by one, and a leading '-'
   * negates the value.
   */
  function ParseFloat(tok: string): (r: Option<real>)
    ensures r.Some? <==> DecimalLiteral(tok) || (|tok| > 0 && (tok[0] == '-' || tok[0] == '+') && DecimalLiteral(tok[1..]))
    ensures IsDigits(tok) ==> r == Some(DigitsValue(tok) as real)
    ensures forall i :: PointLiteral(tok, i) ==> r == Some(PointValue(tok, i))
    ensures |tok| > 0 && tok[0] == '-' ==>
      && (IsDigits(tok[1..]) ==> r == Some(-(DigitsValue(tok[1..]) as real)))
      && (forall i :: PointLiteral(tok[1..], i) ==> r == Some(-PointValue(tok[1..], i)))
    ensures |tok| > 0 && tok[0] == '+' ==>
      && (IsDigits(tok[1..]) ==> r == Some(DigitsValue(tok[1..]) as real))
      && (forall i :: PointLiteral(tok[1..], i) ==> r == Some(PointValue(tok[1..], i)))
    ensures r.Some? && r.value < 0.0 ==> |tok| > 0 && tok[0] == '-'
  {
    if |tok| > 0 && tok[0] == '-' then
      SignedNotLiteral(tok);
      match ParseUnsignedDecimal(tok[1..])
      case Some(v) => Some(-v)
      case None => None
    else if |tok| > 0 && tok[0] == '+' then
      SignedNotLiteral(tok);
      ParseUnsignedDecimal(tok[1..])
    else ParseUnsignedDecimal(tok)
  }

  /** A point between digits: "10.5" reads as 10.5. */
  lemma ParseFloatPointInside()
    ensures ParseFloat("10.5") == Some(10.5)
  {
    var s := "10.5";
    assert s[..2] == "10" && s[3..] == "5";
    assert "10"[..1] == "1";
    assert DigitsValue("10") == 10;
    assert PointLiteral(s, 2) && PointValue(s, 2) == 10.5;
  }

  /** A point before the digits: ".5" reads as 0.5. */
  lemma ParseFloatPointFirst()
    ensures ParseFloat(".5") == Some(0.5)
  {
    var s := ".5";
    assert s[..0] == "" && s[1..] == "5";
    assert PointLiteral(s, 0);
  }

  /** A point after the digits: "5." reads as 5.0. */
  lemma ParseFloatPointLast()
    ensures ParseFloat("5.") == Some(5.0)
  {
    var s := "5.";
    assert s[..1] == "5" && s[2..] == "";
    assert PointLiteral(s, 1);
  }

  /** A minus sign negates: "-2.25" reads as -2.25. */
  lemma ParseFloatNegative()
    ensures ParseFloat("-2.25") == Some(-2.25)
  {
    var s := "2.25";
    assert "-2.25"[1..] == s;
    assert s[..1] == "2" && s[2..] == "25";
    assert "25"[..1] == "2";
    assert DigitsValue("25") == 25;
    assert Pow10(2) == 100;
    assert PointLiteral(s, 1) && PointValue(s, 1) == 2.25;
    assert ParseUnsignedDecimal(s) == Some(2.25);
  }

  /** An underscore between digits is refused here, although Python accepts it. */
  lemma ParseFloatUnderscore()
    ensures ParseFloat("1_0") == None
  {
    var s := "1_0";
    assert !IsDigit(s[1]);
    forall i | 0 <= i < |s| ensures !PointLiteral(s, i) { assert s[i] != '.'; }
  }

  // ---------------------------------------------------------------------------
  // Case
  // ---------------------------------------------------------------------------

  function LowerChar(c: char): char {
    if 'A' <= c <= 'Z' then (c as int - 'A' as int + 'a' as int) as char else c
  }

  /** `s.lower()` on ASCII letters; other characters are kept. */
  function Lower(s: string): string {
    seq(|s|, k requires 0 <= k < |s| => LowerChar(s[k]))
  }

  // ---------------------------------------------------------------------------
  // Substrings: find, `in`, endswith, lstrip
  // ---------------------------------------------------------------------------

  /** `pat` occurs in `s` starting at position `i`. */
  predicate OccursAt(s: string, pat: string, i: int) {
    0 <= i && i + |pat| <= |s| && s[i..i + |pat|] == pat
  }

  lemma OccursShift(s: string, pat: string)
    requires |s| > 0
    ensures forall i :: 1 <= i ==> (OccursAt(s, pat, i) <==> OccursAt(s[1..], pat, i - 1))
  {
    forall i | 1 <= i
      ensures OccursAt(s, pat, i) <==> OccursAt(s[1..], pat, i - 1)
    {
      if i + |pat| <= |s| {
        assert s[1..][i - 1..i - 1 + |pat|] == s[i..i + |pat|];
      }
    }
  }

  /** An occurrence that ends within the first `n` characters is an occurrence in `s[..n]`. */
  lemma OccursInPrefix(s: string, n: int, pat: string, j: int)
    requires 0 <= n <= |s| && 0 <= j && j + |pat| <= n
    ensures OccursAt(s[..n], pat, j) <==> OccursAt(s, pat, j)
  {
    assert s[..n][j..j + |pat|] == s[j..j + |pat|];
  }

  /** Python's `s.find(pat)`: the first position where `pat` occurs, or -1. */
  function Find(s: string, pat: string): (r: int)
    requires |pat| > 0
    ensures r == -1 || 0 <= r <= |s| - |pat|
    decreases |s|
  {
    if |s| < |pat| then -1
    else if s[..|pat|] == pat then 0
    else
      var k := Find(s[1..], pat);
      if k < 0 then -1 else k + 1
  }

  /** `find` gives the first occurrence, or -1 when there is none. */
  lemma {:induction false} FindIsFirst(s: string, pat: string)
    requires |pat| > 0
    ensures Find(s, pat) >= 0 ==> OccursAt(s, pat, Find(s, pat))
    ensures forall i :: 0 <= i && (Find(s, pat) < 0 || i < Find(s, pat)) ==> !OccursAt(s, pat, i)
    decreases |s|
  {
    if |s| >= |pat| {
      assert s[0..|pat|] == s[..|pat|];
      if s[..|pat|] != pat {
        FindIsFirst(s[1..], pat);
        OccursShift(s, pat);
      }
    }
  }

  /** Python's `pat in s`. */
  predicate Contains(s: string, pat: string)
    requires |pat| > 0
  {
    Find(s, pat) >= 0
  }

  /** `pat in s` holds exactly when `pat` occurs somewhere in `s`. */
  lemma ContainsIff(s: string, pat: string)
    requires |pat| > 0
    ensures Contains(s, pat) <==> exists i :: OccursAt(s, pat, i)
  {
    FindIsFirst(s, pat);
  }

  /** Python's `s.endswith(suffix)`. */
  predicate EndsWith(s: string, suffix: string) {
    |suffix| <= |s| && s[|s| - |suffix|..] == suffix
  }

  /** Python's `s.lstrip(c)` for one character `c`. */
  function LStripChar(s: string, c: char): (r: string)
    ensures |r| <= |s| && r == s[|s| - |r|..]
    ensures forall k :: 0 <= k < |s| - |r| ==> s[k] == c
    ensures r == [] || r[0] != c
  {
    if |s| > 0 && s[0] == c then LStripChar(s[1..], c) else s
  }

  // ---------------------------------------------------------------------------
  // split(sep) and sep.join(parts)
  // ---------------------------------------------------------------------------

  /** Python's `sep.join(parts)`. */
  function Join(parts: seq<string>, sep: string): string {
    if |parts| == 0 then ""
    else if |parts| == 1 then parts[0]
    else parts[0] + sep + Join(parts[1..], sep)
  }

  lemma {:induction false} JoinSnoc(parts: seq<string>, p: string, sep: string)
    requires |parts| > 0
    ensures Join(parts + [p], sep) == Join(parts, sep) + sep + p
    decreases |parts|
  {
    if |parts| == 1 {
      assert parts + [p] == [parts[0], p];
    } else {
      assert (parts + [p])[1..] == parts[1..] + [p];
      JoinSnoc(parts[1..], p, sep);
    }
  }

  /**
   * Python's `s.split(sep)`: the pieces between the non-overlapping occurrences of
   * `sep` found from left to right. Joining them back with `sep` gives `s`, and no
   * piece contains `sep`.
   */
  function Split(s: string, sep: string): (parts: seq<string>)
    requires |sep| > 0
    ensures |parts| > 0
    ensures Join(parts, sep) == s
    decreases |s|
  {
    var i := Find(s, sep);
    FindIsFirst(s, sep);
    if i < 0 then [s]
    else
      var head, rest := s[..i], Split(s[i + |sep|..], sep);
      assert s == head + sep + s[i + |sep|..] by {
        assert s[i..i + |sep|] == sep;
      }
      assert ([head] + rest)[1..] == rest;
      [head] + rest
  }

  /**
   * The split is leftmost: there is one piece exactly when `sep` does not occur,
   * and otherwise the first piece ends where `sep` first occurs.
   */
  lemma SplitIsLeftmost(s: string, sep: string)
    requires |sep| > 0
    ensures |Split(s, sep)| == 1 <==> Find(s, sep) < 0
    ensures |Split(s, sep)| > 1 ==> Find(s, sep) == |Split(s, sep)[0]|
  {
    var i := Find(s, sep);
    if i >= 0 {
      assert Split(s, sep) == [s[..i]] + Split(s[i + |sep|..], sep);
    }
  }

  /** Three newlines split on a blank line leave the third newline in the second piece. */
  lemma SplitLeftmostExample()
    ensures Split("a\n\n\nb", "\n\n") == ["a", "\nb"]
  {
    var s := "a\n\n\nb";
    assert Find(s, "\n\n") == 1 by {
      assert s[..2][0] == 'a';
      assert s[1..][..2] == "\n\n";
    }
    assert s[..1] == "a" && s[3..] == "\nb";
    var t := "\nb";
    assert Find(t, "\n\n") == -1 by {
      assert t[..2][1] == 'b';
      assert |t[1..]| < 2;
    }
  }

  /** No piece of `s.split(sep)` contains `sep`. */
  lemma {:induction false} SplitPiecesFree(s: string, sep: string)
    requires |sep| > 0
    ensures forall k :: 0 <= k < |Split(s, sep)| ==> !Contains(Split(s, sep)[k], sep)
    decreases |s|
  {
    var i := Find(s, sep);
    FindIsFirst(s, sep);
    if i >= 0 {
      var head := s[..i];
      forall j | 0 <= j
        ensures !OccursAt(head, sep, j)
      {
        if j + |sep| <= i {
          OccursInPrefix(s, i, sep, j);
        }
      }
      ContainsIff(head, sep);
      SplitPiecesFree(s[i + |sep|..], sep);
    }
  }

  /**
   * `sep` occurs in `p + sep` first at the appended copy: the piece `p` ends before
   * the separator that follows it, whatever comes after.
   */
  predicate SplitsCleanly(p: string, sep: string)
    requires |sep| > 0
  {
    Find(p + sep, sep) == |p|
  }

  lemma FindAfterCleanPiece(p: string, sep: string, t: string)
    requires |sep| > 0 && SplitsCleanly(p, sep)
    ensures Find(p + sep + t, sep) == |p|
  {
    var u := p + sep + t;
    assert u[..|p| + |sep|] == p + sep;
    OccursInPrefix(u, |p| + |sep|, sep, |p|);
    FindIsFirst(u, sep);
    FindIsFirst(p + sep, sep);
    var r := Find(u, sep);
    if r < |p| {
      OccursInPrefix(u, |p| + |sep|, sep, r);
    }
  }

  /** Splitting pieces joined with `sep` gives the pieces back, when each piece but the last splits cleanly. */
  lemma {:induction false} SplitOfJoin(parts: seq<string>, sep: string)
    requires |sep| > 0 && |parts| > 0
    requires forall k :: 0 <= k < |parts| - 1 ==> SplitsCleanly(parts[k], sep)
    requires !Contains(parts[|parts| - 1], sep)
    ensures Split(Join(parts, sep), sep) == parts
    decreases |parts|
  {
    if |parts| > 1 {
      var p, t := parts[0], Join(parts[1..], sep);
      FindAfterCleanPiece(p, sep, t);
      var s := p + sep + t;
      assert s[..|p|] == p;
      assert s[|p| + |sep|..] == t;
      SplitOfJoin(parts[1..], sep);
    }
  }

  /** With a one-character separator, a piece without that character splits cleanly. */
  lemma CharSplitsCleanly(p: string, c: char)
    requires c !in p
    ensures SplitsCleanly(p, [c]) && !Contains(p, [c])
  {
    forall i | 0 <= i < |p|
      ensures !OccursAt(p, [c], i) && !OccursAt(p + [c], [c], i)
    {
      assert (p + [c])[i] == p[i];
    }
    assert OccursAt(p + [c], [c], |p|);
    FindIsFirst(p + [c], [c]);
    ContainsIff(p, [c]);
  }

  /** The character `c` occurs in `s` exactly when the one-character string `[c]` does. */
  lemma CharContains(s: string, c: char)
    ensures Contains(s, [c]) <==> c in s
  {
    forall i | 0 <= i < |s|
      ensures OccursAt(s, [c], i) <==> s[i] == c
    {
      assert s[i..i + 1] == [s[i]];
    }
    ContainsIff(s, [c]);
  }

  /** No two consecutive newlines, i.e. no blank line inside. */
  predicate NoBlankLine(p: string) {
    forall i :: 0 <= i < |p| - 1 ==> !(p[i] == '\n' && p[i + 1] == '\n')
  }

  /** A piece with no blank line inside does not contain "\n\n". */
  lemma NoBlankLineFree(p: string)
    requires NoBlankLine(p)
    ensures !Contains(p, "\n\n")
  {
    forall i | 0 <= i
      ensures !OccursAt(p, "\n\n", i)
    {
      if i + 2 <= |p| {
        assert p[i..i + 2] == [p[i], p[i + 1]];
      }
    }
    ContainsIff(p, "\n\n");
  }

  /** A piece with no blank line inside and no final newline splits cleanly on "\n\n". */
  lemma BlankLineSplitsCleanly(p: string)
    requires NoBlankLine(p) && (p == [] || p[|p| - 1] != '\n')
    ensures SplitsCleanly(p, "\n\n")
  {
    var u := p + "\n\n";
    forall i | 0 <= i < |p|
      ensures !OccursAt(u, "\n\n", i)
    {
      assert u[i] == p[i];
      if i + 1 < |p| {
        assert u[i + 1] == p[i + 1];
      }
      if i + 2 <= |u| {
        assert u[i..i + 2] == [u[i], u[i + 1]];
      }
    }
    assert u[|p|..|p| + 2] == "\n\n";
    assert OccursAt(u, "\n\n", |p|);
    FindIsFirst(u, "\n\n");
    var r := Find(u, "\n\n");
    assert r >= 0 && r <= |p|;
    assert OccursAt(u, "\n\n", r);
  }

  /**
   * Python's `s.split(c)[-1]`: the text after the last `c`, or all of `s` when it
   * holds no `c`.
   */
  function LastSegment(s: string, c: char): (r: string)
    ensures |r| <= |s| && r == s[|s| - |r|..]
    ensures c !in r
    ensures |r| < |s| ==> s[|s| - |r| - 1] == c
  {
    var parts := Split(s, [c]);
    var r := parts[|parts| - 1];
    SplitPiecesFree(s, [c]);
    CharContains(r, c);
    if |parts| == 1 then r
    else
      JoinSnoc(parts[..|parts| - 1], r, [c]);
      assert parts[..|parts| - 1] + [r] == parts;
      r
  }

  /** A name that ends in `c` followed by a text free of `c` has that text as its last segment. */
  lemma LastSegmentOfSuffix(stem: string, c: char, ext: string)
    requires c !in ext
    ensures LastSegment(stem + [c] + ext, c) == ext
  {
    var s := stem + [c] + ext;
    var r := LastSegment(s, c);
    assert s[|s| - |ext|..] == ext;
    assert s[|s| - |ext| - 1] == c;
    assert forall k :: 0 <= k < |r| ==> r[k] == s[|s| - |r| + k];
    assert forall k :: 0 <= k < |ext| ==> s[|s| - |ext| + k] == ext[k];
  }
}
