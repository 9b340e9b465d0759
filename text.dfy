/** The few string operations of Python the collector relies on: str.replace,
    str.strip/rstrip, str.isspace, decimal formatting of an int and the
    code-point order in which sorted() arranges strings. */
module Text {

  /** str.isspace(): the characters str.strip() removes when called without
      arguments (control characters 9-13 and 28-31, the space, and the
      Unicode space separators, line and paragraph separators). */
  predicate IsWhitespace(c: char)
  {
    ('\t' <= c <= '\r') || ('\U{1C}' <= c <= '\U{1F}') || c == ' '
    || c == '\U{85}' || c == '\U{A0}' || c == '\U{1680}'
    || ('\U{2000}' <= c <= '\U{200A}') || c == '\U{2028}' || c == '\U{2029}'
    || c == '\U{202F}' || c == '\U{205F}' || c == '\U{3000}'
  }

  predicate IsDot(c: char)
  {
    c == '.'
  }

  predicate OccursAt(s: string, pat: string, i: nat)
  {
    i + |pat| <= |s| && s[i..i + |pat|] == pat
  }

  /** Python's `pat in s`. */
  predicate Occurs(s: string, pat: string)
  {
    exists i: nat :: i <= |s| && OccursAt(s, pat, i)
  }

  /** Python's s.replace(pat, rep) for a non-empty pat: occurrences are
      found left to right and do not overlap. */
  function Replace(s: string, pat: string, rep: string): (r: string)
    requires pat != []
    ensures forall c :: c in r ==> c in s || c in rep
    ensures |rep| <= |pat| ==> |r| <= |s|
    decreases |s|
  {
    if |s| < |pat| then s
    else if s[..|pat|] == pat then rep + Replace(s[|pat|..], pat, rep)
    else [s[0]] + Replace(s[1..], pat, rep)
  }

  /** A single-character pattern is replaced character by character. */
  lemma {:induction false} ReplaceChar(s: string, x: char, y: char)
    ensures |Replace(s, [x], [y])| == |s|
    ensures forall i :: 0 <= i < |s| ==> Replace(s, [x], [y])[i] == if s[i] == x then y else s[i]
    decreases |s|
  {
    if s != [] {
      ReplaceChar(s[1..], x, y);
      var r := Replace(s, [x], [y]);
      assert s[..1] == [s[0]];
      assert r == [if s[0] == x then y else s[0]] + Replace(s[1..], [x], [y]);
    }
  }

  /** Replacing a pattern by something strictly shorter shortens any string
      in which the pattern occurs: the termination argument of a
      "replace while it occurs" loop. */
  lemma {:induction false} ReplaceShortens(s: string, pat: string, rep: string)
    requires pat != [] && |rep| < |pat| && Occurs(s, pat)
    ensures |Replace(s, pat, rep)| < |s|
    decreases |s|
  {
    if s[..|pat|] != pat {
      var i: nat :| i <= |s| && OccursAt(s, pat, i);
      assert s[0..|pat|] == s[..|pat|];
      assert i != 0;
      assert s[1..][i - 1..i - 1 + |pat|] == s[i..i + |pat|];
      assert OccursAt(s[1..], pat, i - 1);
      ReplaceShortens(s[1..], pat, rep);
    }
  }

  /** str.lstrip for the characters `drop` accepts. */
  function LStrip(s: string, drop: char -> bool): (r: string)
    ensures |r| <= |s| && r == s[|s| - |r|..]
    ensures r == [] || !drop(r[0])
    ensures forall i :: 0 <= i < |s| - |r| ==> drop(s[i])
    decreases |s|
  {
    if s != [] && drop(s[0]) then LStrip(s[1..], drop) else s
  }

  /** str.rstrip for the characters `drop` accepts. */
  function RStrip(s: string, drop: char -> bool): (r: string)
    ensures |r| <= |s| && r == s[..|r|]
    ensures r == [] || !drop(r[|r| - 1])
    ensures forall i :: |r| <= i < |s| ==> drop(s[i])
    decreases |s|
  {
    if s != [] && drop(s[|s| - 1]) then RStrip(s[..|s| - 1], drop) else s
  }

  /** str.strip() without arguments. */
  function Strip(s: string): (r: string)
  {
    RStrip(LStrip(s, IsWhitespace), IsWhitespace)
  }

  /** strip() drops the whitespace at both ends and nothing else: its result
      is empty exactly for a blank string, and otherwise starts and ends with
      a character that is not whitespace. */
  lemma StripSpec(s: string)
    ensures Strip(s) == [] <==> forall i :: 0 <= i < |s| ==> IsWhitespace(s[i])
    ensures Strip(s) != [] ==> !IsWhitespace(Strip(s)[0]) && !IsWhitespace(Strip(s)[|Strip(s)| - 1])
  {
    var l := LStrip(s, IsWhitespace);
    var r := RStrip(l, IsWhitespace);
    assert r != [] ==> r[0] == l[0];
  }

  function DigitChar(d: nat): char
    requires d < 10
  {
    "0123456789"[d]
  }

  /** Python's str(n) / f"{n}" for a non-negative int. */
  function NatToDecimal(n: nat): (r: string)
    ensures r != []
    ensures forall c :: c in r ==> '0' <= c <= '9'
  {
    if n < 10 then [DigitChar(n)] else NatToDecimal(n / 10) + [DigitChar(n % 10)]
  }

  /** The value of a decimal digit character. */
  function DigitValue(c: char): int
  {
    c as int - '0' as int
  }

  /** int(s) for a string of decimal digits, read left to right: an independent
      reader against which NatToDecimal is checked. */
  function DecimalValue(s: string): int
    decreases |s|
  {
    if s == [] then 0 else DecimalValue(s[..|s| - 1]) * 10 + DigitValue(s[|s| - 1])
  }

  lemma DigitCharValue(d: nat)
    requires d < 10
    ensures DigitValue(DigitChar(d)) == d
  {
    assert "0123456789"[d] as int == '0' as int + d;
  }

  /** f"{n}" reads back as n: the digits are n's, most significant first. */
  lemma {:induction false} NatToDecimalValue(n: nat)
    ensures DecimalValue(NatToDecimal(n)) == n
  {
    if n < 10 {
      DigitCharValue(n);
      assert [DigitChar(n)][..0] == [];
    } else {
      var s := NatToDecimal(n);
      NatToDecimalValue(n / 10);
      DigitCharValue(n % 10);
      assert s[..|s| - 1] == NatToDecimal(n / 10);
    }
  }

  /** f"{n}" has no leading zero, except for n == 0 itself. */
  lemma {:induction false} NatToDecimalNoLeadingZero(n: nat)
    ensures NatToDecimal(n)[0] != '0' || n == 0
  {
    if n < 10 {
      DigitCharValue(n);
    } else {
      NatToDecimalNoLeadingZero(n / 10);
      assert NatToDecimal(n)[0] == NatToDecimal(n / 10)[0];
    }
  }

  /** Different numbers print differently. */
  lemma {:induction false} NatToDecimalInjective(a: nat, b: nat)
    requires NatToDecimal(a) == NatToDecimal(b)
    ensures a == b
  {
    if a >= 10 && b >= 10 {
      var sa, sb := NatToDecimal(a / 10), NatToDecimal(b / 10);
      assert sa + [DigitChar(a % 10)] == sb + [DigitChar(b % 10)];
      assert |sa| == |sb|;
      assert sa == (sa + [DigitChar(a % 10)])[..|sa|];
      assert sb == (sb + [DigitChar(b % 10)])[..|sb|];
      NatToDecimalInjective(a / 10, b / 10);
    }
  }

  /** Python's `a < b` on str: code point by code point, a proper prefix first. */
  predicate LexLess(a: string, b: string)
    decreases |a|
  {
    if a == [] then b != []
    else if b == [] then false
    else if a[0] != b[0] then a[0] < b[0]
    else LexLess(a[1..], b[1..])
  }

  lemma {:induction false} LexLessIrreflexive(a: string)
    ensures !LexLess(a, a)
    decreases |a|
  {
    if a != [] {
      LexLessIrreflexive(a[1..]);
    }
  }

  lemma {:induction false} LexLessTransitive(a: string, b: string, c: string)
    requires LexLess(a, b) && LexLess(b, c)
    ensures LexLess(a, c)
    decreases |a|
  {
    if a != [] && b != [] && c != [] && a[0] == b[0] && b[0] == c[0] {
      LexLessTransitive(a[1..], b[1..], c[1..]);
    }
  }

  lemma {:induction false} LexLessTotal(a: string, b: string)
    ensures a == b || LexLess(a, b) || LexLess(b, a)
    decreases |a|
  {
    if a != [] && b != [] && a[0] == b[0] {
      LexLessTotal(a[1..], b[1..]);
      if a[1..] == b[1..] {
        assert a == [a[0]] + a[1..] && b == [b[0]] + b[1..];
      }
    }
  }

  lemma LexLessAsymmetric(a: string, b: string)
    requires LexLess(a, b)
    ensures !LexLess(b, a)
  {
    if LexLess(b, a) {
      LexLessTransitive(a, b, a);
      LexLessIrreflexive(a);
    }
  }

  /** Every finite non-empty set of strings has a least element. */
  lemma {:induction false} LeastExists(s: set<string>)
    requires s != {}
    ensures exists m :: m in s && forall y :: y in s && y != m ==> LexLess(m, y)
    decreases |s|
  {
    var x :| x in s;
    var rest := s - {x};
    if s == {x} {
      assert forall y :: y in s ==> y == x;
    } else {
      assert rest != {} by {
        var z :| z in s && z != x;
        assert z in rest;
      }
      LeastExists(rest);
      var m :| m in rest && forall y :: y in rest && y != m ==> LexLess(m, y);
      LexLessTotal(m, x);
      if LexLess(m, x) {
        assert forall y :: y in s && y != m ==> LexLess(m, y);
      } else {
        forall y | y in s && y != x
          ensures LexLess(x, y)
        {
          if y != m {
            LexLessTransitive(x, m, y);
          }
        }
      }
    }
  }
}
