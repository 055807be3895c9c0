/** Shared vocabulary of the motif filters: failure-compatible results for the
    Python exceptions the scripts raise, POSIX path joining, and the
    "copy this logo into that directory" action the filters emit. */
module Common {

  datatype Option<+T> = None | Some(value: T)

  /** The Python exceptions that the model carries as values. A missing HDF5
      group or dataset (`KeyError`) and the undefined `is_valid` in the TN5
      logo copier (`NameError`) change the control flow the same way on every
      input, so each filter states their effect directly instead. */
  datatype PyError =
    | ZeroDivisionError   // similarity of an empty seqlet
    | IndexError          // a mapping line with fewer than four fields
    | StopIteration       // `next(infile)` on an empty mapping file

  datatype Result<+T> = Ok(value: T) | Err(error: PyError)

  /** `shutil.copy(source, targetDir)`: one logo file copied into a directory. */
  datatype LogoCopy = LogoCopy(source: string, targetDir: string)

  /** The names of an HDF5 group's members are pairwise distinct. */
  predicate DistinctNames<P>(entries: seq<(string, P)>)
  {
    forall i, j :: 0 <= i < j < |entries| ==> entries[i].0 != entries[j].0
  }

  /** Some entry of `entries` is called `n`. */
  predicate NameIn<P>(entries: seq<(string, P)>, n: string)
  {
    exists k :: 0 <= k < |entries| && entries[k].0 == n
  }

  /** `os.path.join(a, b)` for two components (POSIX): an absolute second
      component replaces the first; otherwise one '/' separates them unless
      the first is empty or already ends with '/'. */
  function PathJoin(a: string, b: string): string
  {
    if |b| > 0 && b[0] == '/' then b
    else if a == [] || a[|a| - 1] == '/' then a + b
    else a + "/" + b
  }

  /** A joined path ends with its second component, and what precedes it is
      the first component, possibly followed by one '/', unless the second
      component is absolute. Kept apart from `PathJoin` so that callers that
      only build paths do not carry these slice facts around. */
  lemma PathJoinShape(a: string, b: string)
    ensures var p := PathJoin(a, b);
      |p| >= |b| && p[|p| - |b|..] == b &&
      ((|b| > 0 && b[0] == '/') || p[..|p| - |b|] in {a, a + "/"})
  {
    var p := PathJoin(a, b);
    if !(|b| > 0 && b[0] == '/') {
      if a == [] || a[|a| - 1] == '/' {
        assert p[..|p| - |b|] == a;
      } else {
        assert p[..|p| - |b|] == a + "/";
      }
    }
  }

  /** The directory a pattern's logos go to: `valid_dir if is_valid else invalid_dir`. */
  function TargetDir(validDir: string, invalidDir: string, isValid: bool): string
  {
    if isValid then validDir else invalidDir
  }

  /** The copies `for logo_path in paths: if os.path.exists(logo_path):
      shutil.copy(logo_path, target_dir)` makes: the existing paths, in order,
      each into `targetDir`; a missing one is skipped. */
  function CopiesInto(paths: seq<string>, targetDir: string, existing: set<string>): (r: seq<LogoCopy>)
    ensures |r| <= |paths|
    ensures forall c :: c in r ==> c.source in paths && c.source in existing && c.targetDir == targetDir
    ensures forall p :: p in paths && p in existing ==> LogoCopy(p, targetDir) in r
    decreases |paths|
  {
    if paths == [] then []
    else
      var rest := CopiesInto(paths[1..], targetDir, existing);
      assert forall p :: p in paths[1..] ==> p in paths;
      (if paths[0] in existing then [LogoCopy(paths[0], targetDir)] else []) + rest
  }

  /** The loop over the logo paths, one `os.path.exists` check per path. */
  method CopyExisting(paths: seq<string>, targetDir: string, existing: set<string>) returns (copies: seq<LogoCopy>)
    ensures copies == CopiesInto(paths, targetDir, existing)
  {
    copies := [];
    var i := 0;
    while i < |paths|
      invariant 0 <= i <= |paths|
      invariant copies + CopiesInto(paths[i..], targetDir, existing) == CopiesInto(paths, targetDir, existing)
    {
      assert paths[i..][1..] == paths[i + 1..];
      if paths[i] in existing {
        copies := copies + [LogoCopy(paths[i], targetDir)];
      }
      i := i + 1;
    }
  }
}
