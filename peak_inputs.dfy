/** The peak-input script: it reads a CSV mapping from ENCODE experiment
    (ENCSR) ids to organisms, then walks the peaks directory and writes one
    line `<peak file> <organism>` for each subdirectory of a mapped experiment
    that holds a `.bed.gz` file. */
module PeakInputs {
  import opened Common
  import opened PyText

  // ---------------------------------------------------------------------
  // Reading the mapping file

  /** Joining the pieces of a split puts the last piece after the final separator. */
  lemma {:induction false} JoinWithLast(parts: seq<string>, sep: char)
    requires |parts| >= 2
    ensures JoinWith(parts, sep) == JoinWith(parts[..|parts| - 1], sep) + [sep] + parts[|parts| - 1]
    decreases |parts|
  {
    if |parts| > 2 {
      JoinWithLast(parts[1..], sep);
      assert parts[1..][..|parts| - 2] == parts[..|parts| - 1][1..];
    }
  }

  /** `s.split(sep)[-1]`. */
  function LastComponent(s: string, sep: char): string
  {
    var parts := Split(s, sep);
    parts[|parts| - 1]
  }

  /** The last component is the part of `s` after its last separator. */
  lemma LastComponentSpec(s: string, sep: char)
    ensures var r := LastComponent(s, sep);
      sep !in r && EndsWith(s, r) && (|r| < |s| ==> s[|s| - |r| - 1] == sep)
  {
    var parts := Split(s, sep);
    var r := parts[|parts| - 1];
    if |parts| >= 2 {
      JoinWithLast(parts, sep);
      var pre := JoinWith(parts[..|parts| - 1], sep) + [sep];
      assert s == pre + r;
    }
  }

  /** The comma-separated fields of a line with its surrounding whitespace removed. */
  function Fields(line: string): seq<string>
  {
    Split(Strip(line, IsPySpace), ',')
  }

  /** One data line of the mapping file: the ENCSR id is the last
      '/'-component of the first field with its surrounding slashes removed;
      the organism is the fourth field with every space made an underscore.
      A line with fewer than four fields raises IndexError. */
  function ParseLine(line: string): Result<(string, string)>
  {
    var fields := Fields(line);
    if |fields| < 4 then Err(IndexError)
    else Ok((LastComponent(Strip(fields[0], IsSlash), '/'), ReplaceChar(fields[3], ' ', '_')))
  }

  /** What `ParseLine` extracts, in terms of the line's fields. */
  lemma ParseLineSpec(line: string)
    ensures var r := ParseLine(line);
      var fields := Fields(line);
      (r.Err? <==> |fields| < 4) &&
      (r.Err? ==> r.error == IndexError) &&
      (r.Ok? ==>
        var f0 := Strip(fields[0], IsSlash);
        var (id, organism) := r.value;
        '/' !in id && EndsWith(f0, id) && (|id| < |f0| ==> f0[|f0| - |id| - 1] == '/') &&
        ' ' !in organism && organism == ReplaceChar(fields[3], ' ', '_'))
  {
    var fields := Fields(line);
    if |fields| >= 4 {
      LastComponentSpec(Strip(fields[0], IsSlash), '/');
    }
  }

  /** `ParseLine` applied to each data line, in order. */
  function ParseAll(lines: seq<string>): (r: seq<Result<(string, string)>>)
    ensures |r| == |lines|
    ensures forall k :: 0 <= k < |lines| ==> r[k] == ParseLine(lines[k])
    decreases |lines|
  {
    if lines == [] then []
    else
      var init := lines[..|lines| - 1];
      assert forall k :: 0 <= k < |init| ==> init[k] == lines[k];
      ParseAll(init) + [ParseLine(lines[|lines| - 1])]
  }

  /** The map `organism_map[encsr_id] = organism` builds from the parsed data
      lines in order; the first line that raised ends the script with its error. */
  function Collect(parsed: seq<Result<(string, string)>>): Result<map<string, string>>
    decreases |parsed|
  {
    if parsed == [] then Ok(map[])
    else match Collect(parsed[..|parsed| - 1])
      case Err(e) => Err(e)
      case Ok(m) =>
        match parsed[|parsed| - 1]
        case Err(e) => Err(e)
        case Ok(entry) => Ok(m[entry.0 := entry.1])
  }

  /** The whole file: `next(infile)` skips the header, and raises on an empty file. */
  function ParseMapping(fileLines: seq<string>): Result<map<string, string>>
  {
    if fileLines == [] then Err(StopIteration) else Collect(ParseAll(fileLines[1..]))
  }

  /** The reading loop that fills `organism_map` key by key. */
  method ReadOrganismMap(fileLines: seq<string>) returns (r: Result<map<string, string>>)
    ensures r == ParseMapping(fileLines)
  {
    if |fileLines| == 0 {
      return Err(StopIteration);
    }
    var lines := fileLines[1..];
    ghost var parsed := ParseAll(lines);
    var organismMap: map<string, string> := map[];
    var i := 0;
    while i < |lines|
      invariant 0 <= i <= |lines|
      invariant Collect(parsed[..i]) == Ok(organismMap)
    {
      assert parsed[..i + 1][..i] == parsed[..i];
      var entry := ParseLine(lines[i]);
      if entry.Err? {
        CollectErrorIsFinal(parsed, i + 1);
        return Err(entry.error);
      }
      var (encsrId, organism) := entry.value;
      organismMap := organismMap[encsrId := organism];
      i := i + 1;
    }
    assert parsed[..i] == parsed;
    return Ok(organismMap);
  }

  /** Once a line has raised, the later lines are never read. */
  lemma {:induction false} CollectErrorIsFinal(parsed: seq<Result<(string, string)>>, j: nat)
    requires j <= |parsed| && Collect(parsed[..j]).Err?
    ensures Collect(parsed) == Collect(parsed[..j])
    decreases |parsed| - j
  {
    if j < |parsed| {
      assert parsed[..j + 1][..j] == parsed[..j];
      CollectErrorIsFinal(parsed, j + 1);
    } else {
      assert parsed[..j] == parsed;
    }
  }

  /** Collecting fails exactly when some line raised, and then with the error
      of one of the lines that raised. */
  lemma {:induction false} CollectFailsIff(parsed: seq<Result<(string, string)>>)
    ensures Collect(parsed).Err? <==> exists k :: 0 <= k < |parsed| && parsed[k].Err?
    ensures Collect(parsed).Err? ==>
      exists k :: 0 <= k < |parsed| && parsed[k] == Err(Collect(parsed).error)
    decreases |parsed|
  {
    if parsed != [] {
      var init := parsed[..|parsed| - 1];
      CollectFailsIff(init);
      assert forall k :: 0 <= k < |init| ==> init[k] == parsed[k];
    }
  }

  /** When no line raised: every id read is a key; the organism kept for an id
      is the one on the last line with that id; and every key-value pair was
      read from some line. */
  lemma {:induction false} CollectLastWins(parsed: seq<Result<(string, string)>>)
    requires Collect(parsed).Ok?
    ensures forall k :: 0 <= k < |parsed| ==> parsed[k].Ok?
    ensures var m := Collect(parsed).value;
      (forall k :: 0 <= k < |parsed| ==> parsed[k].value.0 in m) &&
      (forall k ::
         (0 <= k < |parsed| &&
          forall j :: k < j < |parsed| ==> parsed[j].value.0 != parsed[k].value.0) ==>
         m[parsed[k].value.0] == parsed[k].value.1) &&
      (forall id :: id in m ==> exists k :: 0 <= k < |parsed| && parsed[k] == Ok((id, m[id])))
    decreases |parsed|
  {
    CollectFailsIff(parsed);
    if parsed != [] {
      var init := parsed[..|parsed| - 1];
      CollectFailsIff(init);
      assert forall k :: 0 <= k < |init| ==> init[k] == parsed[k];
      CollectLastWins(init);
    }
  }

  /** The header is never parsed, whatever it holds. */
  lemma HeaderIgnored(header1: string, header2: string, rest: seq<string>)
    ensures ParseMapping([header1] + rest) == ParseMapping([header2] + rest) == Collect(ParseAll(rest))
  {
    assert ([header1] + rest)[1..] == rest && ([header2] + rest)[1..] == rest;
  }

  /** Reading the file fails exactly when it is empty (StopIteration) or some
      data line has fewer than four fields (IndexError). */
  lemma MappingFailsIffShortLine(fileLines: seq<string>)
    ensures ParseMapping(fileLines).Err? <==>
      fileLines == [] || exists k :: 1 <= k < |fileLines| && |Fields(fileLines[k])| < 4
    ensures fileLines == [] ==> ParseMapping(fileLines) == Err(StopIteration)
    ensures fileLines != [] && ParseMapping(fileLines).Err? ==> ParseMapping(fileLines) == Err(IndexError)
  {
    if fileLines != [] {
      var lines := fileLines[1..];
      var parsed := ParseAll(lines);
      CollectFailsIff(parsed);
      forall k | 0 <= k < |lines|
        ensures parsed[k].Err? <==> |Fields(fileLines[k + 1])| < 4
        ensures parsed[k].Err? ==> parsed[k] == Err(IndexError)
      {
        ParseLineSpec(lines[k]);
      }
      if exists k :: 1 <= k < |fileLines| && |Fields(fileLines[k])| < 4 {
        var k :| 1 <= k < |fileLines| && |Fields(fileLines[k])| < 4;
        assert parsed[k - 1].Err?;
      }
    }
  }

  /** Every id read holds no '/', and every organism kept holds no space. */
  lemma MappingIdsAndOrganisms(fileLines: seq<string>)
    requires ParseMapping(fileLines).Ok?
    ensures forall id :: id in ParseMapping(fileLines).value ==>
      '/' !in id && ' ' !in ParseMapping(fileLines).value[id]
  {
    var lines := fileLines[1..];
    var parsed := ParseAll(lines);
    var m := ParseMapping(fileLines).value;
    CollectLastWins(parsed);
    forall id | id in m
      ensures '/' !in id && ' ' !in m[id]
    {
      var k :| 0 <= k < |parsed| && parsed[k] == Ok((id, m[id]));
      ParseLineSpec(lines[k]);
    }
  }

  // ---------------------------------------------------------------------
  // Selecting the peak files

  /** An entry of a directory listing: a file, or a directory with its own listing. */
  datatype Node = File(name: string) | Dir(name: string, entries: seq<Node>)

  predicate IsPeakFile(name: string)
  {
    EndsWith(name, ".bed.gz")
  }

  /** `[f for f in os.listdir(d) if f.endswith('.bed.gz')]` over a listing. */
  function PeakFiles(listing: seq<Node>): seq<string>
    decreases |listing|
  {
    if listing == [] then []
    else if IsPeakFile(listing[0].name) then [listing[0].name] + PeakFiles(listing[1..])
    else PeakFiles(listing[1..])
  }

  /** The number of `.bed.gz` entries of a listing. */
  function CountPeaks(listing: seq<Node>): nat
    decreases |listing|
  {
    if listing == [] then 0
    else (if IsPeakFile(listing[0].name) then 1 else 0) + CountPeaks(listing[1..])
  }

  /** One selected name per `.bed.gz` entry. */
  lemma {:induction false} PeakFilesLength(listing: seq<Node>)
    ensures |PeakFiles(listing)| == CountPeaks(listing)
    decreases |listing|
  {
    if listing != [] {
      PeakFilesLength(listing[1..]);
    }
  }

  /** The `.bed.gz` entry at `i` is selected at the position given by the
      number of `.bed.gz` entries from `i` on, so the selection keeps
      listing order. */
  lemma {:induction false} PeakFileAt(listing: seq<Node>, i: nat)
    requires i < |listing| && IsPeakFile(listing[i].name)
    ensures 1 <= CountPeaks(listing[i..]) <= |PeakFiles(listing)|
    ensures PeakFiles(listing)[|PeakFiles(listing)| - CountPeaks(listing[i..])] == listing[i].name
    decreases i
  {
    if i == 0 {
      PeakFilesLength(listing);
      assert listing[0..] == listing;
    } else {
      var tail := listing[1..];
      PeakFileAt(tail, i - 1);
      assert listing[i..] == tail[i - 1..];
      if IsPeakFile(listing[0].name) {
        assert PeakFiles(listing) == [listing[0].name] + PeakFiles(tail);
      } else {
        assert PeakFiles(listing) == PeakFiles(tail);
      }
    }
  }

  /** The selected names are the `.bed.gz` names of the listing in listing
      order: one per `.bed.gz` entry, each at the position fixed by the
      `.bed.gz` entries that follow it. */
  lemma PeakFilesOrder(listing: seq<Node>)
    ensures |PeakFiles(listing)| == CountPeaks(listing)
    ensures forall i :: 0 <= i < |listing| && IsPeakFile(listing[i].name) ==>
      1 <= CountPeaks(listing[i..]) <= |PeakFiles(listing)| &&
      PeakFiles(listing)[|PeakFiles(listing)| - CountPeaks(listing[i..])] == listing[i].name
  {
    PeakFilesLength(listing);
    var r := PeakFiles(listing);
    forall i | 0 <= i < |listing| && IsPeakFile(listing[i].name)
      ensures 1 <= CountPeaks(listing[i..]) <= |r| && r[|r| - CountPeaks(listing[i..])] == listing[i].name
    {
      PeakFileAt(listing, i);
    }
  }

  /** The selected names are exactly the `.bed.gz` names of the listing, and
      the first of them is the first such name in listing order. */
  lemma {:induction false} PeakFilesSpec(listing: seq<Node>)
    ensures forall x :: x in PeakFiles(listing) ==>
      IsPeakFile(x) && exists i :: 0 <= i < |listing| && listing[i].name == x
    ensures forall i :: 0 <= i < |listing| && IsPeakFile(listing[i].name) ==> listing[i].name in PeakFiles(listing)
    ensures PeakFiles(listing) == [] ==> forall i :: 0 <= i < |listing| ==> !IsPeakFile(listing[i].name)
    ensures PeakFiles(listing) != [] ==>
      exists i :: (0 <= i < |listing| && listing[i].name == PeakFiles(listing)[0] &&
        forall j :: 0 <= j < i ==> !IsPeakFile(listing[j].name))
    decreases |listing|
  {
    if listing != [] {
      var tail := listing[1..];
      PeakFilesSpec(tail);
      var r := PeakFiles(listing);
      var rest := PeakFiles(tail);
      assert forall i :: 1 <= i < |listing| ==> tail[i - 1] == listing[i];
      if !IsPeakFile(listing[0].name) && rest != [] {
        var i :| 0 <= i < |tail| && tail[i].name == rest[0] &&
                 forall j :: 0 <= j < i ==> !IsPeakFile(tail[j].name);
        assert listing[i + 1].name == rest[0];
        assert forall j :: 1 <= j < i + 1 ==> !IsPeakFile(listing[j].name);
      }
      if IsPeakFile(listing[0].name) {
        assert r == [listing[0].name] + rest;
        assert forall x :: x in r && x != listing[0].name ==> x in rest;
      }
    }
  }

  function SubdirLine(encsrPath: string, sub: Node, organism: string): Option<string>
  {
    if !sub.Dir? then None
    else
      var peakFiles := PeakFiles(sub.entries);
      if peakFiles == [] then None
      else Some(PathJoin(PathJoin(encsrPath, sub.name), peakFiles[0]) + " " + organism + "\n")
  }

  /** A subdirectory yields a line exactly when it is a directory holding a
      `.bed.gz` entry, and the line names the first such entry in listing order. */
  lemma SubdirLineSpec(encsrPath: string, sub: Node, organism: string)
    ensures var r := SubdirLine(encsrPath, sub, organism);
      (r.Some? <==> sub.Dir? && exists i :: 0 <= i < |sub.entries| && IsPeakFile(sub.entries[i].name)) &&
      (r.Some? ==>
        exists i :: (0 <= i < |sub.entries| && IsPeakFile(sub.entries[i].name) &&
          (forall j :: 0 <= j < i ==> !IsPeakFile(sub.entries[j].name)) &&
          r.value == PathJoin(PathJoin(encsrPath, sub.name), sub.entries[i].name) + " " + organism + "\n"))
  {
    if sub.Dir? {
      PeakFilesSpec(sub.entries);
    }
  }

  /** The lines written for the subdirectories `subs`, in listing order. */
  function DirLines(encsrPath: string, subs: seq<Node>, organism: string): (r: seq<string>)
    ensures |r| <= |subs|
    decreases |subs|
  {
    if subs == [] then []
    else
      var prev := DirLines(encsrPath, subs[..|subs| - 1], organism);
      match SubdirLine(encsrPath, subs[|subs| - 1], organism)
      case None => prev
      case Some(line) => prev + [line]
  }

  /** The lines written for the top-level entries `top`: only directories
      whose name is a key of the map contribute. */
  function PeakLines(basePath: string, top: seq<Node>, organismMap: map<string, string>): seq<string>
    decreases |top|
  {
    if top == [] then []
    else
      var prev := PeakLines(basePath, top[..|top| - 1], organismMap);
      var d := top[|top| - 1];
      if d.Dir? && d.name in organismMap then
        prev + DirLines(PathJoin(basePath, d.name), d.entries, organismMap[d.name])
      else prev
  }

  /** The directory walk: for each mapped experiment directory and each of its
      subdirectories, append the first `.bed.gz` file with the organism. */
  method EmitPeakLines(basePath: string, top: seq<Node>, organismMap: map<string, string>)
    returns (written: seq<string>)
    ensures written == PeakLines(basePath, top, organismMap)
  {
    written := [];
    var i := 0;
    while i < |top|
      invariant 0 <= i <= |top|
      invariant written == PeakLines(basePath, top[..i], organismMap)
    {
      assert top[..i + 1][..i] == top[..i];
      var encsrDir := top[i];
      if encsrDir.Dir? && encsrDir.name in organismMap {
        var organism := organismMap[encsrDir.name];
        var encsrPath := PathJoin(basePath, encsrDir.name);
        var j := 0;
        while j < |encsrDir.entries|
          invariant 0 <= j <= |encsrDir.entries|
          invariant written == PeakLines(basePath, top[..i], organismMap) +
                               DirLines(encsrPath, encsrDir.entries[..j], organism)
        {
          assert encsrDir.entries[..j + 1][..j] == encsrDir.entries[..j];
          var subDir := encsrDir.entries[j];
          if subDir.Dir? {
            var peakFiles := PeakFiles(subDir.entries);
            if |peakFiles| > 0 {
              var peakFile := PathJoin(PathJoin(encsrPath, subDir.name), peakFiles[0]);
              written := written + [peakFile + " " + organism + "\n"];
            }
          }
          j := j + 1;
        }
        assert encsrDir.entries[..j] == encsrDir.entries;
      }
      i := i + 1;
    }
    assert top[..i] == top;
  }

  /** A line is written for a subdirectory exactly when that subdirectory
      yields one. */
  lemma {:induction false} DirLinesChar(encsrPath: string, subs: seq<Node>, organism: string, line: string)
    ensures line in DirLines(encsrPath, subs, organism) <==>
            exists j :: 0 <= j < |subs| && SubdirLine(encsrPath, subs[j], organism) == Some(line)
    decreases |subs|
  {
    if subs != [] {
      var init := subs[..|subs| - 1];
      DirLinesChar(encsrPath, init, organism, line);
      assert forall j :: 0 <= j < |init| ==> init[j] == subs[j];
    }
  }

  /** A line is written exactly when some subdirectory of some mapped
      experiment directory yields it, with that experiment's organism. */
  lemma {:induction false} PeakLinesChar(basePath: string, top: seq<Node>, organismMap: map<string, string>, line: string)
    ensures line in PeakLines(basePath, top, organismMap) <==>
      exists i, j :: 0 <= i < |top| && top[i].Dir? && top[i].name in organismMap && 0 <= j < |top[i].entries| &&
        SubdirLine(PathJoin(basePath, top[i].name), top[i].entries[j], organismMap[top[i].name]) == Some(line)
    decreases |top|
  {
    if top != [] {
      var init := top[..|top| - 1];
      var d := top[|top| - 1];
      PeakLinesChar(basePath, init, organismMap, line);
      assert forall i :: 0 <= i < |init| ==> init[i] == top[i];
      if d.Dir? && d.name in organismMap {
        DirLinesChar(PathJoin(basePath, d.name), d.entries, organismMap[d.name], line);
      }
    }
  }

  // ---------------------------------------------------------------------
  // The script

  /** How the script ends: normally, with `exit(1)` for a missing mapping
      file, or with an uncaught exception while reading the mapping. */
  datatype ExitStatus = Finished | MissingInputFile | Crashed(error: PyError)

  function Concat(lines: seq<string>): string
    decreases |lines|
  {
    if lines == [] then [] else Concat(lines[..|lines| - 1]) + lines[|lines| - 1]
  }

  /** The whole script, with the mapping file given as its lines (or absent) and
      the peaks directory as a listing. The output file is truncated before the
      input file is checked, so every early end leaves it empty. */
  method RunScript(inputExists: bool, fileLines: seq<string>, basePath: string, top: seq<Node>)
    returns (output: string, status: ExitStatus)
    ensures !inputExists ==> output == "" && status == MissingInputFile
    ensures inputExists && ParseMapping(fileLines).Err? ==>
      output == "" && status == Crashed(ParseMapping(fileLines).error)
    ensures inputExists && ParseMapping(fileLines).Ok? ==>
      output == Concat(PeakLines(basePath, top, ParseMapping(fileLines).value)) && status == Finished
  {
    output := "";
    if !inputExists {
      return output, MissingInputFile;
    }
    var organismMap := ReadOrganismMap(fileLines);
    if organismMap.Err? {
      return output, Crashed(organismMap.error);
    }
    var written := EmitPeakLines(basePath, top, organismMap.value);
    var k := 0;
    while k < |written|
      invariant 0 <= k <= |written|
      invariant output == Concat(written[..k])
    {
      assert written[..k + 1][..k] == written[..k];
      output := output + written[k];
      k := k + 1;
    }
    assert written[..k] == written;
    return output, Finished;
  }
}
