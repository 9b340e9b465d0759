/** The name sanitizer: turns a student folder name, a prefix or a suffix into
    something usable as (part of) a file name on Windows. */
module Sanitize {
  import opened Text

  /** The characters sanitize_filename treats as invalid on Windows. */
  const Invalid: string := "<>:\"/\\|?*"

  /** What an otherwise empty name becomes. */
  const Placeholder: string := "unnamed"

  predicate DoubleSpaceAt(s: string, i: nat)
  {
    i + 1 < |s| && s[i] == ' ' && s[i + 1] == ' '
  }

  predicate NoDoubleSpace(s: string)
  {
    forall i: nat :: i < |s| ==> !DoubleSpaceAt(s, i)
  }

  /** Each Windows-invalid character becomes a space. */
  function ReplaceInvalid(name: string): (r: string)
    ensures |r| == |name|
    ensures forall c :: c in r ==> c !in Invalid
    ensures forall i :: 0 <= i < |name| && name[i] !in Invalid ==> r[i] == name[i]
    ensures forall i :: 0 <= i < |name| && name[i] in Invalid ==> r[i] == ' '
  {
    seq(|name|, i requires 0 <= i < |name| => if name[i] in Invalid then ' ' else name[i])
  }

  /** Every run of spaces shortened to one space: the result of the
      "replace double spaces while any remain" loop of sanitize_filename,
      computed in one pass. */
  function Squeeze(s: string): (r: string)
    ensures NoDoubleSpace(r)
    ensures forall c :: c in r ==> c in s
    ensures |r| <= |s|
    ensures s != [] ==> r != [] && r[0] == s[0] && r[|r| - 1] == s[|s| - 1]
    decreases |s|
  {
    if |s| < 2 then s
    else if s[0] == ' ' && s[1] == ' ' then Squeeze(s[1..])
    else
      var q := Squeeze(s[1..]);
      NoDoubleSpaceCons(s[0], q);
      [s[0]] + q
  }

  lemma NoDoubleSpaceCons(c: char, q: string)
    requires NoDoubleSpace(q) && (q == [] || c != ' ' || q[0] != ' ')
    ensures NoDoubleSpace([c] + q)
  {
    var s := [c] + q;
    forall i: nat | i < |s|
      ensures !DoubleSpaceAt(s, i)
    {
      if i > 0 {
        assert s[i] == q[i - 1];
        assert i + 1 < |s| ==> s[i + 1] == q[i];
        assert !DoubleSpaceAt(q, i - 1);
      }
    }
  }

  /** Squeeze drops the first of two leading spaces. */
  lemma SqueezeSpaceSpace(t: string)
    ensures Squeeze("  " + t) == Squeeze(" " + t)
  {
    assert ("  " + t)[1..] == " " + t;
  }

  /** Squeeze keeps a leading character that is not a space. */
  lemma SqueezeNonSpace(c: char, t: string)
    requires c != ' '
    ensures Squeeze([c] + t) == [c] + Squeeze(t)
  {
    assert ([c] + t)[1..] == t;
  }

  /** Squeeze keeps a leading space followed by something other than a space. */
  lemma SqueezeSingleSpace(t: string)
    requires t == [] || t[0] != ' '
    ensures Squeeze(" " + t) == " " + Squeeze(t)
  {
    assert (" " + t)[1..] == t;
  }

  /** The specification of sanitize_filename. */
  function Sanitized(name: string): (r: string)
    ensures r != []
    ensures forall c :: c in r ==> c !in Invalid && c != '_'
    ensures NoDoubleSpace(r)
    ensures !IsWhitespace(r[0])
    ensures r[|r| - 1] != '.'
  {
    var spaced := Replace(ReplaceInvalid(name), "_", " ");
    var collapsed := Squeeze(spaced);
    var trimmed := RStrip(Strip(collapsed), IsDot);
    SpacedChars(name);
    TrimmedPiece(collapsed, trimmed);
    PlaceholderClean();
    if trimmed == [] then Placeholder else trimmed
  }

  /** The placeholder is itself a clean name. */
  lemma PlaceholderClean()
    ensures forall c :: c in Placeholder ==> c !in Invalid && c != '_'
    ensures NoDoubleSpace(Placeholder)
    ensures !IsWhitespace(Placeholder[0]) && !IsWhitespace(Placeholder[|Placeholder| - 1])
  {
    forall c | c in Placeholder
      ensures 'a' <= c <= 'z'
    {
      var i :| 0 <= i < |Placeholder| && Placeholder[i] == c;
    }
  }

  /** After the two substitutions no invalid character and no underscore is left. */
  lemma SpacedChars(name: string)
    ensures forall c :: c in Replace(ReplaceInvalid(name), "_", " ") ==> c !in Invalid && c != '_'
  {
    var x := ReplaceInvalid(name);
    ReplaceChar(x, '_', ' ');
    var u := Replace(x, "_", " ");
    forall c | c in u
      ensures c !in Invalid && c != '_'
    {
      var i :| 0 <= i < |u| && u[i] == c;
      assert u[i] == if x[i] == '_' then ' ' else x[i];
    }
  }

  /** What the two strips keep of a space-collapsed string is a piece of it:
      it has no new characters and no double space, and begins with a
      character that is not whitespace. */
  lemma TrimmedPiece(s: string, t: string)
    requires NoDoubleSpace(s) && t == RStrip(Strip(s), IsDot)
    ensures forall c :: c in t ==> c in s
    ensures NoDoubleSpace(t)
    ensures t == [] || !IsWhitespace(t[0])
  {
    var off := TrimmedOffset(s, t);
    PieceClean(s, t, off);
  }

  /** What the two strips keep is the piece of s starting at the first
      character that is not whitespace. */
  lemma TrimmedOffset(s: string, t: string) returns (off: nat)
    requires t == RStrip(Strip(s), IsDot)
    ensures off + |t| <= |s| && t == s[off..off + |t|]
    ensures t == [] || !IsWhitespace(t[0])
  {
    var l := LStrip(s, IsWhitespace);
    var m := RStrip(l, IsWhitespace);
    off := |s| - |l|;
    assert m == l[..|m|] && t == m[..|t|];
    if t != [] {
      assert t[0] == l[0];
    }
  }

  /** A piece of a string has no new characters and no new double space. */
  lemma PieceClean(s: string, t: string, off: nat)
    requires off + |t| <= |s| && t == s[off..off + |t|] && NoDoubleSpace(s)
    ensures forall c :: c in t ==> c in s
    ensures NoDoubleSpace(t)
  {
    forall i: nat | i + 1 < |t|
      ensures !DoubleSpaceAt(t, i)
    {
      assert t[i] == s[off + i] && t[i + 1] == s[off + i + 1];
      assert !DoubleSpaceAt(s, off + i);
    }
  }

  /** A string without a double space is left as it is by Squeeze. */
  lemma {:induction false} SqueezeFixpoint(s: string)
    requires NoDoubleSpace(s)
    ensures Squeeze(s) == s
    decreases |s|
  {
    if |s| >= 2 {
      assert NoDoubleSpace(s[1..]) by {
        forall i: nat | i + 1 < |s[1..]|
          ensures !DoubleSpaceAt(s[1..], i)
        {
          assert s[1..][i] == s[i + 1] && s[1..][i + 1] == s[i + 2];
          assert !DoubleSpaceAt(s, i + 1);
        }
      }
      SqueezeFixpoint(s[1..]);
      assert !DoubleSpaceAt(s, 0);
      assert s == [s[0]] + s[1..];
    }
  }

  /** `"  " in s` is exactly the presence of a double space. */
  lemma DoubleSpaceOccurs(s: string)
    ensures NoDoubleSpace(s) <==> !Occurs(s, "  ")
  {
    if !NoDoubleSpace(s) {
      var i: nat :| i < |s| && DoubleSpaceAt(s, i);
      assert i + 1 < |s|;
      assert s[i..i + 2] == "  ";
      assert OccursAt(s, "  ", i);
    }
    if Occurs(s, "  ") {
      var i: nat :| i <= |s| && OccursAt(s, "  ", i);
      assert s[i] == s[i..i + 2][0] && s[i + 1] == s[i..i + 2][1];
      assert DoubleSpaceAt(s, i);
    }
  }

  /** One round of `replace("  ", " ")` does not change what Squeeze makes of
      a string, with or without a space in front: the loop keeps Squeeze of
      its variable constant. */
  lemma {:induction false} SqueezeReplace(s: string)
    ensures Squeeze(Replace(s, "  ", " ")) == Squeeze(s)
    ensures Squeeze(" " + Replace(s, "  ", " ")) == Squeeze(" " + s)
    decreases |s|
  {
    if |s| >= 2 {
      if s[..2] == "  " {
        SqueezeReplaceDouble(s);
      } else {
        SqueezeReplace(s[1..]);
        var r := Replace(s[1..], "  ", " ");
        assert Replace(s, "  ", " ") == [s[0]] + r;
        assert s == [s[0]] + s[1..];
        if s[0] == ' ' {
          SqueezeSpaceSpace(r);
          SqueezeSpaceSpace(s[1..]);
        } else {
          SqueezeNonSpace(s[0], r);
          SqueezeNonSpace(s[0], s[1..]);
          SqueezeSingleSpace([s[0]] + r);
          SqueezeSingleSpace(s);
        }
      }
    }
  }

  /** The case of SqueezeReplace where the string starts with two spaces. */
  lemma {:induction false} SqueezeReplaceDouble(s: string)
    requires |s| >= 2 && s[..2] == "  "
    ensures Squeeze(Replace(s, "  ", " ")) == Squeeze(s)
    ensures Squeeze(" " + Replace(s, "  ", " ")) == Squeeze(" " + s)
    decreases |s|, 0
  {
    var r := Replace(s[2..], "  ", " ");
    SqueezeReplace(s[2..]);
    assert Replace(s, "  ", " ") == " " + r;
    assert s == "  " + s[2..];
    SqueezeSpaceSpace(s[2..]);
    SqueezeSpaceSpace(r);
    SqueezeSpaceSpace(s);
  }

  /** sanitize_filename with the script's own loop: a character
      substitution, the underscore replacement, the double-space loop, the
      two strips and the placeholder. It computes Sanitized. */
  method SanitizeFilename(name: string) returns (r: string)
    ensures r == Sanitized(name)
  {
    var sanitized := ReplaceInvalid(name);
    sanitized := Replace(sanitized, "_", " ");
    ghost var spaced := sanitized;
    while Occurs(sanitized, "  ")
      invariant Squeeze(sanitized) == Squeeze(spaced)
      decreases |sanitized|
    {
      ReplaceShortens(sanitized, "  ", " ");
      SqueezeReplace(sanitized);
      sanitized := Replace(sanitized, "  ", " ");
    }
    DoubleSpaceOccurs(sanitized);
    SqueezeFixpoint(sanitized);
    sanitized := RStrip(Strip(sanitized), IsDot);
    r := if sanitized == [] then Placeholder else sanitized;
  }

  /** A name the sanitizer leaves exactly as it is. */
  predicate IsSanitizedForm(s: string)
  {
    && s != []
    && (forall c :: c in s ==> c !in Invalid && c != '_')
    && NoDoubleSpace(s)
    && !IsWhitespace(s[0])
    && !IsWhitespace(s[|s| - 1])
    && s[|s| - 1] != '.'
  }

  /** A name with trailing whitespace is always changed by the sanitizer:
      the strip removes at least that character. */
  lemma TrailingWhitespaceChanges(s: string)
    requires s != []
    ensures IsWhitespace(s[|s| - 1]) ==> Sanitized(s) != s
  {
    if IsWhitespace(s[|s| - 1]) {
      var collapsed := Squeeze(Replace(ReplaceInvalid(s), "_", " "));
      SpacedKeepsLast(s);
      StripDropsTrailing(collapsed);
      assert Placeholder[|Placeholder| - 1] == 'd';
    }
  }

  /** The substitutions and the space collapse keep a trailing whitespace
      character and never lengthen the name. */
  lemma SpacedKeepsLast(s: string)
    requires s != [] && IsWhitespace(s[|s| - 1])
    ensures var c := Squeeze(Replace(ReplaceInvalid(s), "_", " "));
      c != [] && |c| <= |s| && c[|c| - 1] == s[|s| - 1]
  {
    var x := ReplaceInvalid(s);
    assert x[|x| - 1] == s[|s| - 1];
    ReplaceChar(x, '_', ' ');
  }

  /** Stripping a string that ends in whitespace shortens it. */
  lemma StripDropsTrailing(c: string)
    requires c != [] && IsWhitespace(c[|c| - 1])
    ensures |RStrip(Strip(c), IsDot)| < |c|
  {
    var l := LStrip(c, IsWhitespace);
    if l != [] {
      assert l[|l| - 1] == c[|c| - 1];
    }
  }

  /** Stripping a string that starts and ends with non-whitespace keeps it. */
  lemma StripKeepsClean(s: string)
    requires s != [] && !IsWhitespace(s[0]) && !IsWhitespace(s[|s| - 1])
    ensures Strip(s) == s
  {
    assert LStrip(s, IsWhitespace) == s;
    RStripKeeps(s, IsWhitespace);
  }

  /** A name in sanitized form is its own sanitization. */
  lemma SanitizedFormFixed(s: string)
    requires IsSanitizedForm(s)
    ensures Sanitized(s) == s
  {
    CleanUnchangedBySubstitutions(s);
    StripKeepsClean(s);
    RStripKeeps(s, IsDot);
  }

  /** The sanitizer's fixed points are exactly the names in sanitized form. */
  lemma SanitizedFixpoints(s: string)
    ensures Sanitized(s) == s <==> IsSanitizedForm(s)
  {
    if IsSanitizedForm(s) {
      SanitizedFormFixed(s);
    }
    if s != [] {
      TrailingWhitespaceChanges(s);
    }
  }

  /** Sanitizing twice gives the same as once, except when the first result
      ends in whitespace (see SanitizedNotIdempotent). */
  lemma SanitizedIdempotentUnlessTrailingWhitespace(name: string)
    requires !IsWhitespace(Sanitized(name)[|Sanitized(name)| - 1])
    ensures Sanitized(Sanitized(name)) == Sanitized(name)
  {
    SanitizedFixpoints(Sanitized(name));
  }

  /** strip() runs before rstrip("."), so a space in front of trailing dots
      survives: for every name w in sanitized form (say "a"), w + " ."
      sanitizes to w + " ", which ends in a space and which a second
      sanitization changes to w. */
  lemma SanitizedNotIdempotent(w: string)
    requires IsSanitizedForm(w)
    ensures Sanitized(w + " .") == w + " "
    ensures Sanitized(w + " ") == w
  {
    SanitizeDotAfterSpace(w);
    SanitizeTrailingSpace(w);
  }

  lemma SanitizeDotAfterSpace(w: string)
    requires IsSanitizedForm(w)
    ensures Sanitized(w + " .") == w + " "
  {
    CleanExtended(w, " .");
    assert RStrip(Strip(w + " ."), IsDot) == w + " " by {
      var s := (w + " ") + ".";
      assert s == w + " .";
      StripKeepsClean(s);
      RStripLastDot(w + " ");
      RStripKeeps(w + " ", IsDot);
    }
    SanitizedSteps(w + " .");
  }

  /** The sanitizer's last step: what the strips keep of the collapsed
      name, or the placeholder when they keep nothing. */
  lemma SanitizedSteps(name: string)
    ensures var t := RStrip(Strip(Squeeze(Replace(ReplaceInvalid(name), "_", " "))), IsDot);
      Sanitized(name) == if t == [] then Placeholder else t
  {
  }

  lemma RStripLastDot(t: string)
    ensures RStrip(t + ".", IsDot) == RStrip(t, IsDot)
  {
    assert (t + ".")[..|t|] == t;
  }

  lemma SanitizeTrailingSpace(w: string)
    requires IsSanitizedForm(w)
    ensures Sanitized(w + " ") == w
  {
    CleanExtended(w, " ");
    assert RStrip(Strip(w + " "), IsDot) == w by {
      var s := w + " ";
      assert LStrip(s, IsWhitespace) == s;
      assert s[..|s| - 1] == w;
      RStripKeeps(w, IsWhitespace);
      RStripKeeps(w, IsDot);
    }
    SanitizedSteps(w + " ");
  }


  /** A clean name followed by " ." or " " passes the substitutions and the
      collapse unchanged. */
  lemma CleanExtended(w: string, tail: string)
    requires IsSanitizedForm(w)
    requires tail == " ." || tail == " "
    ensures Squeeze(Replace(ReplaceInvalid(w + tail), "_", " ")) == w + tail
  {
    var s := w + tail;
    forall c | c in s
      ensures c !in Invalid && c != '_'
    {
      var i :| 0 <= i < |s| && s[i] == c;
      if i >= |w| {
        assert c == tail[i - |w|];
      } else {
        assert c == w[i];
      }
    }
    NoDoubleSpaceCons(' ', ".");
    NoDoubleSpaceAppend(w, tail);
    CleanUnchangedBySubstitutions(s);
  }

  lemma RStripKeeps(s: string, drop: char -> bool)
    requires s != [] && !drop(s[|s| - 1])
    ensures RStrip(s, drop) == s
  {
  }

  /** Appending to a name that ends in something other than a space keeps
      double spaces out. */
  lemma NoDoubleSpaceAppend(w: string, t: string)
    requires NoDoubleSpace(w) && NoDoubleSpace(t) && w != [] && w[|w| - 1] != ' '
    ensures NoDoubleSpace(w + t)
  {
    var s := w + t;
    forall i: nat | i < |s|
      ensures !DoubleSpaceAt(s, i)
    {
      if i + 1 < |w| {
        assert !DoubleSpaceAt(w, i);
      } else if i >= |w| {
        assert s[i] == t[i - |w|];
        assert i + 1 < |s| ==> s[i + 1] == t[i + 1 - |w|];
        assert !DoubleSpaceAt(t, i - |w|);
      }
    }
  }

  /** The substitutions and the collapse leave a name without invalid
      characters, underscores and double spaces as it is. */
  lemma CleanUnchangedBySubstitutions(s: string)
    requires forall c :: c in s ==> c !in Invalid && c != '_'
    requires NoDoubleSpace(s)
    ensures Squeeze(Replace(ReplaceInvalid(s), "_", " ")) == s
  {
    assert ReplaceInvalid(s) == s;
    ReplaceChar(s, '_', ' ');
    assert Replace(s, "_", " ") == s;
    SqueezeFixpoint(s);
  }
}
