/** The discovery scan (collect_assignment_subfolders): the names of the
    subfolders found one level inside the student folders, without
    duplicates and in ascending order, offered to the user as the choices
    for the assignment selector. */
module Discovery {
  import opened Wrappers
  import opened Text
  import opened SourceTree

  /** Names of the subdirectories in a listing. */
  function SubdirNames(entries: seq<Node>): set<string>
  {
    set e | e in entries && e.Dir? :: e.name
  }

  /** What one entry of the root contributes: the names of the subfolders of
      a student folder, none for a file or for a folder that cannot be listed
      (the PermissionError is caught and the student skipped). */
  function StudentSubfolders(entry: Node): set<string>
  {
    if entry.Dir? && entry.readable then SubdirNames(entry.children) else {}
  }

  /** The names the scan gathers from the root's entries. */
  function AllSubfolders(entries: seq<Node>): set<string>
    decreases |entries|
  {
    if entries == [] then {}
    else AllSubfolders(entries[..|entries| - 1]) + StudentSubfolders(entries[|entries| - 1])
  }

  /** A name is gathered exactly when some listable student folder holds a
      subfolder of that name. */
  lemma {:induction false} AllSubfoldersMembers(entries: seq<Node>, name: string)
    ensures name in AllSubfolders(entries) <==>
      exists e, c :: e in entries && e.Dir? && e.readable && c in e.children && c.Dir? && c.name == name
    decreases |entries|
  {
    if entries != [] {
      var n := |entries| - 1;
      var front, last := entries[..n], entries[n];
      AllSubfoldersMembers(front, name);
      assert entries == front + [last];
      if name in StudentSubfolders(last) {
        var c :| c in last.children && c.Dir? && c.name == name;
        assert last in entries;
      }
      if exists e, c :: e in entries && e.Dir? && e.readable && c in e.children && c.Dir? && c.name == name {
        var e, c :| e in entries && e.Dir? && e.readable && c in e.children && c.Dir? && c.name == name;
        if e != last {
          assert e in front;
        }
      }
    }
  }

  /** Each element is below every later one: ascending, hence without duplicates. */
  predicate StrictlyAscending(s: seq<string>)
  {
    forall i, j :: 0 <= i < j < |s| ==> LexLess(s[i], s[j])
  }

  predicate IsLeast(m: string, names: set<string>)
  {
    m in names && forall y :: y in names && y != m ==> LexLess(m, y)
  }

  /** The least name of a non-empty set. */
  function Least(names: set<string>): (m: string)
    requires names != {}
    ensures IsLeast(m, names)
  {
    assert exists m :: IsLeast(m, names) by {
      LeastExists(names);
      var w :| w in names && forall y :: y in names && y != w ==> LexLess(w, y);
      assert IsLeast(w, names);
    }
    LeastUnique(names);
    var m :| m in names && IsLeast(m, names);
    m
  }

  lemma LeastUnique(names: set<string>)
    ensures forall a, b :: IsLeast(a, names) && IsLeast(b, names) ==> a == b
  {
    forall a, b | IsLeast(a, names) && IsLeast(b, names)
      ensures a == b
    {
      if a != b {
        LexLessAsymmetric(a, b);
      }
    }
  }

  /** sorted(names): the names in ascending order, each once. */
  function SortedNames(names: set<string>): (r: seq<string>)
    ensures |r| == |names|
    ensures forall x :: x in r <==> x in names
    ensures StrictlyAscending(r)
    decreases |names|
  {
    if names == {} then []
    else
      var m := Least(names);
      var rest := SortedNames(names - {m});
      [m] + rest
  }

  /** The order is determined: two ascending sequences with the same
      elements are equal, so any correct sort returns SortedNames. */
  lemma {:induction false} SortedUnique(a: seq<string>, b: seq<string>)
    requires StrictlyAscending(a) && StrictlyAscending(b)
    requires forall x :: x in a <==> x in b
    ensures a == b
    decreases |a|
  {
    assert a != [] ==> a[0] in b;
    assert b != [] ==> b[0] in a;
    if a != [] && b != [] {
      assert a[0] == b[0] by {
        assert a[0] in b && b[0] in a;
        if a[0] != b[0] {
          AscendingHeadIsLeast(a, b[0]);
          AscendingHeadIsLeast(b, a[0]);
          LexLessAsymmetric(a[0], b[0]);
        }
      }
      forall x
        ensures x in a[1..] <==> x in b[1..]
      {
        AscendingTail(a, x);
        AscendingTail(b, x);
      }
      SortedUnique(a[1..], b[1..]);
      assert a == [a[0]] + a[1..] && b == [b[0]] + b[1..];
    }
  }

  lemma AscendingHeadIsLeast(s: seq<string>, x: string)
    requires s != [] && StrictlyAscending(s) && x in s && x != s[0]
    ensures LexLess(s[0], x)
  {
    var i :| 0 <= i < |s| && s[i] == x;
  }

  lemma AscendingTail(s: seq<string>, x: string)
    requires s != [] && StrictlyAscending(s)
    ensures x in s[1..] <==> x in s && x != s[0]
  {
    if x in s[1..] {
      var i :| 0 <= i < |s| - 1 && s[1..][i] == x;
      assert LexLess(s[0], s[i + 1]);
      LexLessIrreflexive(s[0]);
    }
    if x in s && x != s[0] {
      var i :| 0 <= i < |s| && s[i] == x;
      assert s[1..][i - 1] == x;
    }
  }

  /** collect_assignment_subfolders(turned_in_path). A root that is not a
      directory gives the empty list; a root that cannot be listed raises
      (the PermissionError is not caught at this level). */
  method CollectAssignmentSubfolders(root: Node) returns (res: Result<seq<string>, FsError>)
    ensures !root.Dir? ==> res == Success([])
    ensures root.Dir? && !root.readable ==> res == Failure(PermissionDenied)
    ensures root.Dir? && root.readable ==> res == Success(SortedNames(AllSubfolders(root.children)))
  {
    if !root.Dir? {
      return Success([]);
    }
    if !root.readable {
      return Failure(PermissionDenied);
    }
    var names: set<string> := {};
    var entries := root.children;
    for e := 0 to |entries|
      invariant names == AllSubfolders(entries[..e])
    {
      var entry := entries[e];
      assert entries[..e + 1][..e] == entries[..e];
      if !entry.Dir? || !entry.readable {
        continue;
      }
      var subs := entry.children;
      ghost var before := names;
      for k := 0 to |subs|
        invariant names == before + SubdirNames(subs[..k])
      {
        assert subs[..k + 1] == subs[..k] + [subs[k]];
        if subs[k].Dir? {
          names := names + {subs[k].name};
        }
      }
      assert subs[..|subs|] == subs;
    }
    assert entries[..|entries|] == entries;
    return Success(SortedNames(names));
  }
}
