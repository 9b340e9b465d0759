/** The unique-name resolver: the first of "base.ext", "base (2).ext",
    "base (3).ext", ... that is not already in the output folder. The folder
    is the finite set of names it holds; os.path.exists is membership. */
module UniqueName {
  import opened Text

  /** The i-th name tried for base and ext: the plain name for i = 1, the
      numbered name " (i)" for i >= 2. */
  function Candidate(base: string, ext: string, i: nat): string
  {
    if i < 2 then base + ext else base + " (" + NatToDecimal(i) + ")" + ext
  }

  /** Every candidate starts with the base name and ends with the extension,
      and only the first is the plain name. */
  lemma CandidateShape(base: string, ext: string, i: nat)
    ensures var r := Candidate(base, ext, i);
      && |base| + |ext| <= |r|
      && r[..|base|] == base && r[|r| - |ext|..] == ext
      && (r == base + ext <==> i < 2)
  {
  }

  /** Different attempts try different names, so the search cannot revisit one. */
  lemma CandidateInjective(base: string, ext: string, i: nat, j: nat)
    requires 1 <= i && 1 <= j
    requires Candidate(base, ext, i) == Candidate(base, ext, j)
    ensures i == j
  {
    if i >= 2 && j >= 2 {
      var a, b := NatToDecimal(i), NatToDecimal(j);
      var c := Candidate(base, ext, i);
      assert |a| == |b|;
      assert a == c[|base| + 2..|base| + 2 + |a|];
      assert b == c[|base| + 2..|base| + 2 + |b|];
      NatToDecimalInjective(i, j);
    }
  }

  /** name is the first candidate (in the order 1, 2, 3, ...) missing from existing. */
  ghost predicate IsLeastFree(base: string, ext: string, existing: set<string>, name: string)
  {
    && name !in existing
    && exists k: nat :: 1 <= k && name == Candidate(base, ext, k)
         && forall j: nat :: 1 <= j < k ==> Candidate(base, ext, j) in existing
  }

  /** choose_unique_filename(base, ext, folder). */
  method ChooseUniqueFilename(base: string, ext: string, existing: set<string>) returns (name: string)
    ensures name !in existing
    ensures base + ext !in existing ==> name == base + ext
    ensures base + ext in existing ==>
      exists k: nat :: 2 <= k <= |existing| + 1 && name == base + " (" + NatToDecimal(k) + ")" + ext
        && forall j: nat :: 2 <= j < k ==> base + " (" + NatToDecimal(j) + ")" + ext in existing
    ensures IsLeastFree(base, ext, existing, name)
  {
    name := base + ext;
    if name !in existing {
      assert name == Candidate(base, ext, 1);
      return;
    }
    var i: nat := 2;
    ghost var tried: set<string> := {base + ext};
    assert tried == set j: nat | 1 <= j < i :: Candidate(base, ext, j) by {
      assert Candidate(base, ext, 1) == base + ext;
    }
    while Candidate(base, ext, i) in existing
      invariant 2 <= i
      invariant tried == set j: nat | 1 <= j < i :: Candidate(base, ext, j)
      invariant tried <= existing && |tried| == i - 1
      invariant forall j: nat :: 1 <= j < i ==> Candidate(base, ext, j) in existing
      decreases |existing| - |tried|
    {
      if Candidate(base, ext, i) in tried {
        var j: nat :| 1 <= j < i && Candidate(base, ext, j) == Candidate(base, ext, i);
        CandidateInjective(base, ext, i, j);
      }
      assert tried + {Candidate(base, ext, i)} <= existing;
      tried := tried + {Candidate(base, ext, i)};
      i := i + 1;
      SubsetCardinality(tried, existing);
    }
    name := Candidate(base, ext, i);
    assert i <= |existing| + 1 by {
      assert |tried| <= |existing| by {
        SubsetCardinality(tried, existing);
      }
    }
    forall j: nat | 2 <= j < i
      ensures base + " (" + NatToDecimal(j) + ")" + ext in existing
    {
      assert Candidate(base, ext, j) in existing;
    }
    assert name == base + " (" + NatToDecimal(i) + ")" + ext;
  }

  /** The resolver's answer is determined: at most one name is the least free one. */
  lemma LeastFreeUnique(base: string, ext: string, existing: set<string>, a: string, b: string)
    requires IsLeastFree(base, ext, existing, a) && IsLeastFree(base, ext, existing, b)
    ensures a == b
  {
    var ka: nat :| 1 <= ka && a == Candidate(base, ext, ka)
      && forall j: nat :: 1 <= j < ka ==> Candidate(base, ext, j) in existing;
    var kb: nat :| 1 <= kb && b == Candidate(base, ext, kb)
      && forall j: nat :: 1 <= j < kb ==> Candidate(base, ext, j) in existing;
    assert ka < kb ==> Candidate(base, ext, ka) in existing;
    assert kb < ka ==> Candidate(base, ext, kb) in existing;
  }

  lemma SubsetCardinality(a: set<string>, b: set<string>)
    requires a <= b
    ensures |a| <= |b|
  {
    assert b == a + (b - a);
  }

  /** The names claimed so far. */
  function Claimed(names: seq<string>): set<string>
  {
    set x | x in names
  }

  /** Claiming the result of each call before the next one (as the collector
      does for a student's files with one extension) yields the plain name,
      then " (2)", " (3)", ... in order, when none of these existed before. */
  lemma {:induction false} RepeatedClaims(base: string, ext: string, existing: set<string>, names: seq<string>)
    requires forall j: nat :: 1 <= j ==> Candidate(base, ext, j) !in existing
    requires ClaimedInOrder(base, ext, existing, names)
    ensures forall n :: 0 <= n < |names| ==> names[n] == Candidate(base, ext, n + 1)
    decreases |names|
  {
    if names != [] {
      var m := |names| - 1;
      var front := names[..m];
      ClaimedInOrderPrefix(base, ext, existing, names, m);
      RepeatedClaims(base, ext, existing, front);
      assert LeastFreeAfter(base, ext, existing, names, m);
      assert names[..m] == front;
      NextClaim(base, ext, existing, front, names[m]);
      forall n | 0 <= n < |names|
        ensures names[n] == Candidate(base, ext, n + 1)
      {
        if n < m {
          assert names[n] == front[n];
        }
      }
    }
  }

  /** names[n] is what the resolver returns once names[..n] have been claimed. */
  ghost predicate LeastFreeAfter(base: string, ext: string, existing: set<string>, names: seq<string>, n: nat)
    requires n < |names|
  {
    IsLeastFree(base, ext, existing + Claimed(names[..n]), names[n])
  }

  /** Each name is the resolver's answer once the names before it are claimed. */
  ghost predicate ClaimedInOrder(base: string, ext: string, existing: set<string>, names: seq<string>)
  {
    forall n: nat :: n < |names| ==> LeastFreeAfter(base, ext, existing, names, n)
  }

  lemma ClaimedInOrderPrefix(base: string, ext: string, existing: set<string>, names: seq<string>, m: nat)
    requires m <= |names| && ClaimedInOrder(base, ext, existing, names)
    ensures ClaimedInOrder(base, ext, existing, names[..m])
  {
    forall n: nat | n < m
      ensures LeastFreeAfter(base, ext, existing, names[..m], n)
    {
      assert names[..m][..n] == names[..n];
      assert LeastFreeAfter(base, ext, existing, names, n);
    }
  }

  /** The step of RepeatedClaims: after the first m candidates are claimed,
      the least free one is candidate m + 1. */
  lemma NextClaim(base: string, ext: string, existing: set<string>, front: seq<string>, name: string)
    requires forall j: nat :: 1 <= j ==> Candidate(base, ext, j) !in existing
    requires forall n :: 0 <= n < |front| ==> front[n] == Candidate(base, ext, n + 1)
    requires IsLeastFree(base, ext, existing + Claimed(front), name)
    ensures name == Candidate(base, ext, |front| + 1)
  {
    var m := |front|;
    var seen := existing + Claimed(front);
    assert Candidate(base, ext, m + 1) !in seen by {
      if Candidate(base, ext, m + 1) in Claimed(front) {
        var n :| 0 <= n < |front| && front[n] == Candidate(base, ext, m + 1);
        CandidateInjective(base, ext, n + 1, m + 1);
      }
    }
    forall j: nat | 1 <= j < m + 1
      ensures Candidate(base, ext, j) in seen
    {
      assert front[j - 1] == Candidate(base, ext, j);
      assert front[j - 1] in Claimed(front);
    }
    assert IsLeastFree(base, ext, seen, Candidate(base, ext, m + 1));
    LeastFreeUnique(base, ext, seen, name, Candidate(base, ext, m + 1));
  }
}
