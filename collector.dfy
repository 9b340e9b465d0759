/** The collector (copy_from_local_folder): one pass over the student folders
    under the source root that copies every file found into the flat output
    folder under a name built from the student's name. The output folder is
    the set of names it holds; a copy adds its destination name to it. */
module Collector {
  import opened Wrappers
  import opened Text
  import opened Sanitize
  import opened UniqueName
  import opened SourceTree
  import opened Paths

  /** The pair (total_files_found, total_files_copied) the collector returns. */
  datatype Counts = Counts(found: nat, copied: nat)

  /** The collector's settings besides the two folders. */
  datatype Settings = Settings(selector: Option<string>, prefix: Option<string>, suffix: Option<string>, addToHeader: bool)

  /** A file to copy: the base name its copy is named after and its own name. */
  datatype Job = Job(base: string, file: string)

  /** One copy: the file, its destination name in the output folder, and the
      label the header stamper was asked to write into it (None when it was
      not invoked). */
  datatype CopyOp = CopyOp(file: string, dest: string, headerLabel: Option<string>)

  /** A prefix or suffix as it enters the base name: sanitized and stripped
      when present and not blank, otherwise empty. */
  function SafeAffix(a: Option<string>): (r: string)
    ensures r != [] <==> a.Some? && Strip(a.value) != []
    ensures r != [] ==> !IsWhitespace(r[0]) && !IsWhitespace(r[|r| - 1])
  {
    if a.Some? && Strip(a.value) != [] then
      var s := Sanitized(a.value);
      StripKeepsFirst(s);
      Strip(s)
    else []
  }

  /** Stripping a string that starts with a character other than whitespace
      keeps that character. */
  lemma StripKeepsFirst(s: string)
    requires s != [] && !IsWhitespace(s[0])
    ensures Strip(s) != [] && Strip(s)[0] == s[0]
  {
    assert LStrip(s, IsWhitespace) == s;
  }

  /** The base name from the cleaned prefix, the sanitized student name and
      the cleaned suffix. */
  function JoinBase(safePrefix: string, student: string, safeSuffix: string): string
  {
    if safePrefix != [] && safeSuffix != [] then safePrefix + " " + student + " " + safeSuffix
    else if safePrefix != [] then safePrefix + " " + student
    else if safeSuffix != [] then student + " " + safeSuffix
    else student
  }

  /** " ".join(parts). */
  function JoinSpaces(parts: seq<string>): string
  {
    if parts == [] then []
    else if |parts| == 1 then parts[0]
    else parts[0] + " " + JoinSpaces(parts[1..])
  }

  /** A part that is left out when empty. */
  function Present(s: string): seq<string>
  {
    if s == [] then [] else [s]
  }

  /** The base name of a student's files: prefix, student name and suffix
      joined by single spaces in that order, a prefix or suffix that is None
      or blank left out. */
  function BaseName(prefix: Option<string>, suffix: Option<string>, student: string): (r: string)
    ensures r == JoinSpaces(Present(SafeAffix(prefix)) + [student] + Present(SafeAffix(suffix)))
  {
    var p, s := SafeAffix(prefix), SafeAffix(suffix);
    JoinBaseJoinsPresentParts(p, student, s);
    JoinBase(p, student, s)
  }

  lemma JoinBaseJoinsPresentParts(p: string, student: string, s: string)
    ensures JoinBase(p, student, s) == JoinSpaces(Present(p) + [student] + Present(s))
  {
    var parts := Present(p) + [student] + Present(s);
    if p != [] && s != [] {
      assert parts == [p, student, s];
      assert parts[1..] == [student, s] && parts[1..][1..] == [s];
      assert JoinSpaces(parts[1..]) == student + " " + s;
    } else if p != [] {
      assert parts == [p, student];
      assert parts[1..] == [student];
    } else if s != [] {
      assert parts == [student, s];
      assert parts[1..] == [s];
    } else {
      assert parts == [student];
    }
  }

  /** With neither prefix nor suffix the base name is the sanitized student name. */
  lemma BaseNameWithoutAffixes(prefix: Option<string>, suffix: Option<string>, student: string)
    requires prefix.None? || Strip(prefix.value) == []
    requires suffix.None? || Strip(suffix.value) == []
    ensures BaseName(prefix, suffix, student) == student
  {
    assert Present(SafeAffix(prefix)) + [student] + Present(SafeAffix(suffix)) == [student];
  }

  /** A selector counts only when it is a non-empty string (Python truthiness). */
  predicate HasSelector(selector: Option<string>)
  {
    selector.Some? && selector.value != []
  }

  /** The files the collector copies for one entry of the source root: none
      for a file, none for a student without the selected subfolder, the
      walk of the selected subfolder, or without a selector the walk of the
      whole student folder. */
  function EntryFiles(entry: Node, selector: Option<string>): seq<string>
  {
    if !entry.Dir? then []
    else if HasSelector(selector) then
      match ChildDir(entry, selector.value)
      case None => []
      case Some(d) => Walk(d)
    else Walk(entry)
  }

  /** The selector "." names the student folder itself, so it walks the whole
      folder, as no selector does. */
  lemma DotSelectorWalksStudent(entry: Node)
    requires entry.Dir? && entry.readable
    ensures EntryFiles(entry, Some(".")) == EntryFiles(entry, None) == Walk(entry)
  {
  }

  /** The jobs for files all copied under one base name. */
  function FileJobs(base: string, files: seq<string>): (r: seq<Job>)
    ensures |r| == |files|
    ensures forall i :: 0 <= i < |r| ==> r[i] == Job(base, files[i])
  {
    seq(|files|, i requires 0 <= i < |files| => Job(base, files[i]))
  }

  lemma FileJobsAppend(base: string, files: seq<string>, f: string)
    ensures FileJobs(base, files + [f]) == FileJobs(base, files) + [Job(base, f)]
  {
  }

  /** The jobs of one entry of the source root: its files, all under the
      base name of the entry's sanitized name. */
  function EntryJobs(entry: Node, s: Settings): seq<Job>
  {
    FileJobs(BaseName(s.prefix, s.suffix, Sanitized(entry.name)), EntryFiles(entry, s.selector))
  }

  /** All files the collector copies, student folder by student folder. */
  function Jobs(entries: seq<Node>, s: Settings): seq<Job>
    decreases |entries|
  {
    if entries == [] then []
    else Jobs(entries[..|entries| - 1], s) + EntryJobs(entries[|entries| - 1], s)
  }

  /** The jobs of a prefix of the root's entries grow by the next entry's jobs. */
  lemma JobsStep(entries: seq<Node>, e: nat, s: Settings)
    requires e < |entries|
    ensures Jobs(entries[..e + 1], s) == Jobs(entries[..e], s) + EntryJobs(entries[e], s)
  {
    assert entries[..e + 1][..e] == entries[..e];
  }

  /** A non-directory entry, or a student folder lacking the selected
      subfolder, contributes no file. */
  lemma SkippedEntry(entries: seq<Node>, e: nat, s: Settings)
    requires e < |entries|
    requires !entries[e].Dir? || (HasSelector(s.selector) && ChildDir(entries[e], s.selector.value).None?)
    ensures Jobs(entries[..e + 1], s) == Jobs(entries[..e], s)
  {
    JobsStep(entries, e, s);
  }

  /** The destination names of a run of copies. */
  function Dests(copies: seq<CopyOp>): set<string>
    decreases |copies|
  {
    if copies == [] then {} else Dests(copies[..|copies| - 1]) + {copies[|copies| - 1].dest}
  }

  lemma {:induction false} DestsAppend(a: seq<CopyOp>, b: seq<CopyOp>)
    ensures Dests(a + b) == Dests(a) + Dests(b)
    decreases |b|
  {
    if b != [] {
      var n := |b| - 1;
      DestsAppend(a, b[..n]);
      assert (a + b)[..|a| + n] == a + b[..n];
      assert b[..n] == b[..|b| - 1];
    } else {
      assert a + b == a;
    }
  }

  /** The copy c of job made in a folder holding `existing`: the first free
      candidate name for the job's base name and its file's extension, with
      the header stamper invoked on it, with the base name as label, exactly
      for a ".docx" file when stamping is on. */
  ghost predicate Placed(c: CopyOp, job: Job, addToHeader: bool, existing: set<string>)
  {
    var ext := Ext(job.file);
    && c.file == job.file
    && IsLeastFree(job.base, ext, existing, c.dest)
    && c.headerLabel == (if addToHeader && IsDocx(ext) then Some(job.base) else None)
  }

  /** copies is what the collector does for jobs starting from a folder
      holding `output`: one copy per job, each placed in the folder as the
      earlier copies left it. */
  ghost predicate ValidRun(output: set<string>, jobs: seq<Job>, copies: seq<CopyOp>, addToHeader: bool)
  {
    && |copies| == |jobs|
    && forall i :: 0 <= i < |copies| ==> PlacedAt(output, jobs, copies, addToHeader, i)
  }

  /** The i-th copy of a run is placed as the i-th job asks. */
  ghost predicate PlacedAt(output: set<string>, jobs: seq<Job>, copies: seq<CopyOp>, addToHeader: bool, i: nat)
  {
    i < |copies| && i < |jobs| && Placed(copies[i], jobs[i], addToHeader, output + Dests(copies[..i]))
  }

  lemma PrefixWithin<T>(a: seq<T>, b: seq<T>, i: nat)
    requires i <= |a|
    ensures (a + b)[..i] == a[..i]
  {
  }

  lemma PrefixOfAppend<T>(a: seq<T>, b: seq<T>, k: nat)
    requires k <= |b|
    ensures (a + b)[..|a| + k] == a + b[..k]
  {
  }

  /** A run followed by a run that starts from the folder the first one
      left is a run. */
  lemma ValidRunConcat(output: set<string>, jobs1: seq<Job>, copies1: seq<CopyOp>,
                       jobs2: seq<Job>, copies2: seq<CopyOp>, addToHeader: bool)
    requires ValidRun(output, jobs1, copies1, addToHeader)
    requires ValidRun(output + Dests(copies1), jobs2, copies2, addToHeader)
    ensures ValidRun(output, jobs1 + jobs2, copies1 + copies2, addToHeader)
  {
    var jobs, all := jobs1 + jobs2, copies1 + copies2;
    forall i | 0 <= i < |all|
      ensures PlacedAt(output, jobs, all, addToHeader, i)
    {
      if i < |copies1| {
        assert all[i] == copies1[i] && jobs[i] == jobs1[i];
        PrefixWithin(copies1, copies2, i);
        assert PlacedAt(output, jobs1, copies1, addToHeader, i);
      } else {
        var k := i - |copies1|;
        assert all[i] == copies2[k] && jobs[i] == jobs2[k];
        PrefixOfAppend(copies1, copies2, k);
        DestsAppend(copies1, copies2[..k]);
        assert output + Dests(all[..i]) == (output + Dests(copies1)) + Dests(copies2[..k]);
        assert PlacedAt(output + Dests(copies1), jobs2, copies2, addToHeader, k);
      }
    }
  }

  lemma ValidRunAppend(output: set<string>, jobs: seq<Job>, copies: seq<CopyOp>, job: Job, c: CopyOp, addToHeader: bool)
    requires ValidRun(output, jobs, copies, addToHeader)
    requires Placed(c, job, addToHeader, output + Dests(copies))
    ensures ValidRun(output, jobs + [job], copies + [c], addToHeader)
  {
    assert Dests([c][..0]) == {} by {
      assert [c][..0] == [];
    }
    ValidRunConcat(output, jobs, copies, [job], [c], addToHeader);
  }

  lemma ValidRunPrefix(output: set<string>, jobs: seq<Job>, copies: seq<CopyOp>, addToHeader: bool, n: nat)
    requires ValidRun(output, jobs, copies, addToHeader) && n <= |copies|
    ensures ValidRun(output, jobs[..n], copies[..n], addToHeader)
  {
    forall i | 0 <= i < n
      ensures PlacedAt(output, jobs[..n], copies[..n], addToHeader, i)
    {
      assert copies[..n][..i] == copies[..i];
      assert PlacedAt(output, jobs, copies, addToHeader, i);
    }
  }

  /** Every copy of a run lands on a name that was free, so the output folder
      grows by exactly as many names as there were copies. */
  lemma {:induction false} RunAddsFreshNames(output: set<string>, jobs: seq<Job>, copies: seq<CopyOp>, addToHeader: bool)
    requires ValidRun(output, jobs, copies, addToHeader)
    ensures output !! Dests(copies)
    ensures |output + Dests(copies)| == |output| + |copies|
    decreases |copies|
  {
    if copies != [] {
      var n := |copies| - 1;
      ValidRunPrefix(output, jobs, copies, addToHeader, n);
      RunAddsFreshNames(output, jobs[..n], copies[..n], addToHeader);
      assert PlacedAt(output, jobs, copies, addToHeader, n);
      assert copies[n].dest !in output + Dests(copies[..n]);
      assert output + Dests(copies) == (output + Dests(copies[..n])) + {copies[n].dest};
    }
  }

  /** The run is determined by the jobs and the starting folder: two valid
      runs over the same jobs make the same copies. */
  lemma {:induction false} ValidRunDeterministic(output: set<string>, jobs: seq<Job>,
                                                 copies1: seq<CopyOp>, copies2: seq<CopyOp>, addToHeader: bool)
    requires ValidRun(output, jobs, copies1, addToHeader)
    requires ValidRun(output, jobs, copies2, addToHeader)
    ensures copies1 == copies2
    decreases |copies1|
  {
    if copies1 != [] {
      var n := |copies1| - 1;
      ValidRunPrefix(output, jobs, copies1, addToHeader, n);
      ValidRunPrefix(output, jobs, copies2, addToHeader, n);
      ValidRunDeterministic(output, jobs[..n], copies1[..n], copies2[..n], addToHeader);
      assert PlacedAt(output, jobs, copies1, addToHeader, n);
      assert PlacedAt(output, jobs, copies2, addToHeader, n);
      LeastFreeUnique(jobs[n].base, Ext(jobs[n].file), output + Dests(copies1[..n]), copies1[n].dest, copies2[n].dest);
      assert copies1 == copies1[..n] + [copies1[n]];
      assert copies2 == copies2[..n] + [copies2[n]];
    }
  }

  /** The two inner loops of copy_from_local_folder for one student: each
      walked file is counted, given the first free name in the output folder,
      copied there (its name joins the folder), stamped when it is a ".docx"
      file and stamping is on, and counted as copied. */
  method CopyWalkedFiles(files: seq<string>, baseName: string, addToHeader: bool,
                         folder0: set<string>, found0: nat, copied0: nat)
    returns (copies: seq<CopyOp>, folder: set<string>, found: nat, copied: nat)
    ensures ValidRun(folder0, FileJobs(baseName, files), copies, addToHeader)
    ensures folder == folder0 + Dests(copies)
    ensures found == found0 + |files| && copied == copied0 + |files|
  {
    copies, folder, found, copied := [], folder0, found0, copied0;
    for k := 0 to |files|
      invariant found == found0 + k && copied == copied0 + k
      invariant folder == folder0 + Dests(copies)
      invariant ValidRun(folder0, FileJobs(baseName, files[..k]), copies, addToHeader)
    {
      var fname := files[k];
      found := found + 1;
      var ext := Ext(fname);
      var dest := ChooseUniqueFilename(baseName, ext, folder);
      // shutil.copy2 creates dest in the output folder
      var stamp: Option<string> := None;
      if addToHeader && IsDocx(ext) {
        // add_filename_to_docx_header(dest, base_name); its result is ignored
        stamp := Some(baseName);
      }
      var op := CopyOp(fname, dest, stamp);
      ValidRunAppend(folder0, FileJobs(baseName, files[..k]), copies, Job(baseName, fname), op, addToHeader);
      FileJobsAppend(baseName, files[..k], fname);
      assert files[..k + 1] == files[..k] + [fname];
      DestsAppend(copies, [op]);
      assert Dests([op]) == {dest} by {
        assert [op][..0] == [];
      }
      copies := copies + [op];
      folder := folder + {dest};
      copied := copied + 1;
    }
    assert files[..|files|] == files;
  }

  /** The copies made for one more student folder extend the run over the
      entries before it. */
  lemma StudentDone(output: set<string>, entries: seq<Node>, e: nat, s: Settings,
                    copies: seq<CopyOp>, more: seq<CopyOp>)
    requires e < |entries|
    requires ValidRun(output, Jobs(entries[..e], s), copies, s.addToHeader)
    requires ValidRun(output + Dests(copies), EntryJobs(entries[e], s), more, s.addToHeader)
    ensures ValidRun(output, Jobs(entries[..e + 1], s), copies + more, s.addToHeader)
    ensures output + Dests(copies + more) == output + Dests(copies) + Dests(more)
  {
    ValidRunConcat(output, Jobs(entries[..e], s), copies, EntryJobs(entries[e], s), more, s.addToHeader);
    DestsAppend(copies, more);
    JobsStep(entries, e, s);
  }

  /** The base name of a student's files, computed as the collector does:
      the student folder's name, prefix and suffix each sanitized, the
      affixes stripped and left out when blank. */
  method StudentBaseName(name: string, prefix: Option<string>, suffix: Option<string>) returns (baseName: string)
    ensures baseName == BaseName(prefix, suffix, Sanitized(name))
  {
    var studentName := SanitizeFilename(name);
    var safePrefix := "";
    if prefix.Some? && Strip(prefix.value) != [] {
      var p := SanitizeFilename(prefix.value);
      safePrefix := Strip(p);
    }
    var safeSuffix := "";
    if suffix.Some? && Strip(suffix.value) != [] {
      var s := SanitizeFilename(suffix.value);
      safeSuffix := Strip(s);
    }
    baseName := JoinBase(safePrefix, studentName, safeSuffix);
  }

  /** The folder the collector walks for a student folder: the selected
      subfolder when a selector is given (None when it is missing), else the
      student folder itself. */
  method StudentWalkRoot(entry: Node, selector: Option<string>) returns (walkRoot: Option<Node>)
    requires entry.Dir?
    ensures walkRoot.Some? ==> Walk(walkRoot.value) == EntryFiles(entry, selector)
    ensures walkRoot.None? <==> HasSelector(selector) && ChildDir(entry, selector.value).None?
  {
    // roots_to_walk holds exactly one folder whenever the student is not skipped
    if HasSelector(selector) {
      walkRoot := ChildDir(entry, selector.value);
    } else {
      walkRoot := Some(entry);
    }
  }

  /** One student folder's turn in copy_from_local_folder: the base name,
      the folder to walk (none when the selected subfolder is missing) and
      the copies of the walked files. */
  method CopyStudent(entry: Node, selector: Option<string>, prefix: Option<string>, suffix: Option<string>,
                     addToHeader: bool, folder0: set<string>, found0: nat, copied0: nat)
    returns (more: seq<CopyOp>, folder: set<string>, found: nat, copied: nat)
    requires entry.Dir?
    ensures ValidRun(folder0, EntryJobs(entry, Settings(selector, prefix, suffix, addToHeader)), more, addToHeader)
    ensures folder == folder0 + Dests(more)
    ensures found == found0 + |more| && copied == copied0 + |more|
  {
    var baseName := StudentBaseName(entry.name, prefix, suffix);
    var walkRoot := StudentWalkRoot(entry, selector);
    if walkRoot.None? {
      return [], folder0, found0, copied0;
    }
    var files := Walk(walkRoot.value);
    more, folder, found, copied := CopyWalkedFiles(files, baseName, addToHeader, folder0, found0, copied0);
  }

  /** copy_from_local_folder(root, output, selector, prefix, suffix,
      add_to_header). It fails, changing nothing, when the root is not a
      directory (the RuntimeError) or cannot be listed; otherwise it copies
      every job in order and returns found == copied == the number of jobs. */
  method CopyFromLocalFolder(root: Node, output: set<string>, selector: Option<string>,
                             prefix: Option<string>, suffix: Option<string>, addToHeader: bool)
    returns (res: Result<Counts, FsError>, copies: seq<CopyOp>, folder: set<string>)
    ensures !root.Dir? ==> res == Failure(NotADirectory) && copies == [] && folder == output
    ensures root.Dir? && !root.readable ==> res == Failure(PermissionDenied) && copies == [] && folder == output
    ensures root.Dir? && root.readable ==>
      && res == Success(Counts(|copies|, |copies|))
      && ValidRun(output, Jobs(root.children, Settings(selector, prefix, suffix, addToHeader)), copies, addToHeader)
    ensures folder == output + Dests(copies)
  {
    copies, folder := [], output;
    if !root.Dir? {
      return Failure(NotADirectory), copies, folder;
    }
    if !root.readable {
      return Failure(PermissionDenied), copies, folder;
    }
    ghost var settings := Settings(selector, prefix, suffix, addToHeader);
    var totalFound: nat, totalCopied: nat := 0, 0;
    var entries := root.children;
    for e := 0 to |entries|
      invariant totalFound == totalCopied == |copies|
      invariant folder == output + Dests(copies)
      invariant ValidRun(output, Jobs(entries[..e], settings), copies, addToHeader)
    {
      var entry := entries[e];
      if !entry.Dir? {
        SkippedEntry(entries, e, settings);
        continue;
      }
      var more;
      more, folder, totalFound, totalCopied := CopyStudent(entry, selector, prefix, suffix, addToHeader, folder, totalFound, totalCopied);
      StudentDone(output, entries, e, settings, copies, more);
      copies := copies + more;
    }
    assert entries[..|entries|] == entries;
    res := Success(Counts(totalFound, totalCopied));
  }
}
