/** The source folder as the collector and the discovery scan see it: the
    listings the file system would return, given as values. */
module SourceTree {
  import opened Wrappers

  /** A directory entry: a file, or a directory with its entries in listing
      order. `readable` is false for a directory that cannot be listed. */
  datatype Node = File(name: string) | Dir(name: string, readable: bool, children: seq<Node>)

  /** The errors the file system raises at the two operations that do not
      catch them: a root that is not a directory, a root that cannot be listed. */
  datatype FsError = NotADirectory | PermissionDenied

  /** Names of the files directly in a listing, in listing order. */
  function FileNames(entries: seq<Node>): (r: seq<string>)
    ensures |r| <= |entries|
    ensures forall f :: f in r ==> exists e :: e in entries && e.File? && e.name == f
  {
    if entries == [] then []
    else (if entries[0].File? then [entries[0].name] else []) + FileNames(entries[1..])
  }

  /** The file names `for dirpath, dirs, files in os.walk(top): for fname in
      files` visits: a directory's own files first, then each subdirectory's
      walk in listing order; a directory that cannot be listed yields
      nothing (os.walk ignores the error). */
  function Walk(n: Node): seq<string>
    decreases n, 1
  {
    match n
    case File(_) => []
    case Dir(_, readable, children) =>
      if readable then FileNames(children) + WalkAll(children) else []
  }

  function WalkAll(ns: seq<Node>): seq<string>
    decreases ns, 0
  {
    if ns == [] then [] else Walk(ns[0]) + WalkAll(ns[1..])
  }

  /** f names a file the walk of n can reach: a file directly in n, or one
      reached from a subfolder, every folder on the way being listable. */
  ghost predicate Reaches(n: Node, f: string)
    decreases n
  {
    n.Dir? && n.readable && exists c :: c in n.children && ((c.File? && c.name == f) || Reaches(c, f))
  }

  lemma {:induction false} FileNamesMembers(entries: seq<Node>, f: string)
    ensures f in FileNames(entries) <==> exists e :: e in entries && e.File? && e.name == f
    decreases |entries|
  {
    if entries != [] {
      FileNamesMembers(entries[1..], f);
      assert forall e :: e in entries <==> e == entries[0] || e in entries[1..];
    }
  }

  /** The walk lists exactly the files it can reach. */
  lemma {:induction false} WalkReaches(n: Node, f: string)
    ensures f in Walk(n) <==> Reaches(n, f)
    decreases n, 1
  {
    if n.Dir? && n.readable {
      FileNamesMembers(n.children, f);
      WalkAllReaches(n.children, f);
    }
  }

  lemma {:induction false} WalkAllReaches(ns: seq<Node>, f: string)
    ensures f in WalkAll(ns) <==> exists c :: c in ns && Reaches(c, f)
    decreases ns, 0
  {
    if ns != [] {
      WalkReaches(ns[0], f);
      WalkAllReaches(ns[1..], f);
      assert forall c :: c in ns <==> c == ns[0] || c in ns[1..];
    }
  }

  /** The first subdirectory called `name` in a listing. */
  function FindDir(entries: seq<Node>, name: string): (r: Option<Node>)
    ensures r.Some? ==> r.value in entries && r.value.Dir? && r.value.name == name
    ensures r.None? ==> forall e :: e in entries ==> !(e.Dir? && e.name == name)
  {
    if entries == [] then None
    else if entries[0].Dir? && entries[0].name == name then Some(entries[0])
    else FindDir(entries[1..], name)
  }

  /** os.path.isdir(os.path.join(dir, name)) for a name that is "." or a
      single entry name, returning that directory: "." names dir itself. */
  function ChildDir(dir: Node, name: string): (r: Option<Node>)
    ensures name == "." ==> (r.Some? <==> dir.Dir? && dir.readable) && (r.Some? ==> r.value == dir)
    ensures name != "." ==>
      (r.Some? <==> dir.Dir? && dir.readable && exists e :: e in dir.children && e.Dir? && e.name == name)
    ensures name != "." && r.Some? ==> r.value.Dir? && r.value.name == name && r.value in dir.children
  {
    if !(dir.Dir? && dir.readable) then None
    else if name == "." then Some(dir)
    else FindDir(dir.children, name)
  }
}
