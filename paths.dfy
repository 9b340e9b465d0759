/** The extension of a file name as os.path.splitext computes it, and the
    ".docx" test the collector applies to it. File names here are single
    directory entries, so they contain no path separator. */
module Paths {

  /** Index of the last '.' in s, or -1 when there is none. */
  function LastDot(s: string): (i: int)
    ensures -1 <= i < |s|
    ensures i >= 0 ==> s[i] == '.'
    ensures forall j :: i < j < |s| ==> s[j] != '.'
    decreases |s|
  {
    if s == [] then -1
    else if s[|s| - 1] == '.' then |s| - 1
    else LastDot(s[..|s| - 1])
  }

  predicate AllDots(s: string)
  {
    forall j :: 0 <= j < |s| ==> s[j] == '.'
  }

  /** The second half of os.path.splitext(fname): from the last dot on, unless
      only dots come before that dot (".bashrc" and "..x" have no extension). */
  function Ext(fname: string): (ext: string)
  {
    var d := LastDot(fname);
    if d < 0 || AllDots(fname[..d]) then [] else fname[d..]
  }

  /** splitext(fname) = (root, ext) with root + ext == fname: the extension is
      a suffix that is empty or starts with its only dot, a non-empty one
      has a character other than a dot in front of it, and an empty one
      means that only dots come before any dot. */
  lemma ExtSpec(fname: string)
    ensures |Ext(fname)| <= |fname|
    ensures fname[..|fname| - |Ext(fname)|] + Ext(fname) == fname
    ensures Ext(fname) != [] ==>
      && Ext(fname)[0] == '.'
      && (forall j :: 1 <= j < |Ext(fname)| ==> Ext(fname)[j] != '.')
      && !AllDots(fname[..|fname| - |Ext(fname)|])
    ensures Ext(fname) == [] ==>
      forall j, k :: 0 <= j < k < |fname| && fname[k] == '.' ==> fname[j] == '.'
  {
    var d := LastDot(fname);
    var ext := Ext(fname);
    if ext != [] {
      assert fname[..|fname| - |ext|] == fname[..d];
      forall j | 1 <= j < |ext|
        ensures ext[j] != '.'
      {
        assert ext[j] == fname[d + j];
      }
    } else {
      forall j, k | 0 <= j < k < |fname| && fname[k] == '.'
        ensures fname[j] == '.'
      {
        assert 0 <= d && k <= d;
        assert fname[..d][j] == fname[j];
      }
    }
  }

  function LowerAscii(c: char): char
  {
    if 'A' <= c <= 'Z' then (c as int + 32) as char else c
  }

  /** `ext.lower() == ".docx"`: no character outside ASCII lower-cases to one
      of ".docx", so lower-casing the ASCII letters decides it. */
  predicate IsDocx(ext: string)
  {
    |ext| == 5 && forall i :: 0 <= i < 5 ==> LowerAscii(ext[i]) == ".docx"[i]
  }

  /** The ".docx" test ignores letter case and nothing else: the extension is
      ".docx" with each letter in either case. */
  lemma IsDocxLetters(ext: string)
    ensures IsDocx(ext) <==>
      && |ext| == 5 && ext[0] == '.'
      && (ext[1] == 'd' || ext[1] == 'D') && (ext[2] == 'o' || ext[2] == 'O')
      && (ext[3] == 'c' || ext[3] == 'C') && (ext[4] == 'x' || ext[4] == 'X')
  {
    if |ext| == 5 {
      assert LowerAscii(ext[0]) == '.' <==> ext[0] == '.';
      assert LowerAscii(ext[1]) == 'd' <==> ext[1] == 'd' || ext[1] == 'D';
      assert LowerAscii(ext[2]) == 'o' <==> ext[2] == 'o' || ext[2] == 'O';
      assert LowerAscii(ext[3]) == 'c' <==> ext[3] == 'c' || ext[3] == 'C';
      assert LowerAscii(ext[4]) == 'x' <==> ext[4] == 'x' || ext[4] == 'X';
    }
  }
}
