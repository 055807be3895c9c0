/** The TN5 artifact filter: each pattern's first seqlet is decoded from its
    one-hot form and aligned, ungapped, against the five known TN5 adapter
    isoforms; a pattern whose seqlet is similar enough to one of them is an
    artifact of the transposase and goes to the invalid store. */
module Tn5Filter {
  import opened Common

  /** The five TN5 isoforms, in the order they are tried. */
  const TN5_ISOFORMS: seq<string> := [
    "GCACAGTACAGAGCTG",         // tn5_1
    "GTGCACAGTTCTAGAGTGTGCAG",  // tn5_2
    "CCTCTACACTGTGCAGAA",       // tn5_3
    "GCACAGTTCTAGACTGTGCAG",    // tn5_4
    "CTGCACAGTGTAGAGTTGTGC"     // tn5_5
  ]

  const NUCLEOTIDES: string := "ACGT"

  lemma IsoformLengths()
    ensures |TN5_ISOFORMS| == 5
    ensures |TN5_ISOFORMS[0]| == 16 && |TN5_ISOFORMS[1]| == 23 && |TN5_ISOFORMS[2]| == 18
    ensures |TN5_ISOFORMS[3]| == 21 && |TN5_ISOFORMS[4]| == 21
    ensures forall i :: 0 <= i < |TN5_ISOFORMS| ==> |TN5_ISOFORMS[i]| <= 23
  {
  }

  // ---------------------------------------------------------------------
  // decode_seqlet

  /** The argument of `decode_seqlet`: a two-dimensional numpy array (one row
      of scores per position) or some other Python object. */
  datatype OneHot = NdArray(rows: seq<seq<real>>) | NotAnArray

  /** `np.argmax` of a non-empty row: the first index holding the maximum. */
  function ArgMax(row: seq<real>): (k: nat)
    requires |row| > 0
    ensures k < |row|
    ensures forall j :: 0 <= j < |row| ==> row[j] <= row[k]
    ensures forall j :: 0 <= j < k ==> row[j] < row[k]
    decreases |row|
  {
    if |row| == 1 then 0
    else
      var k := ArgMax(row[..|row| - 1]);
      assert forall j :: 0 <= j < |row| - 1 ==> row[..|row| - 1][j] == row[j];
      if row[|row| - 1] > row[k] then |row| - 1 else k
  }

  /** A row decodes when it has an argmax (it is not empty) and the argmax
      indexes `['A', 'C', 'G', 'T']` (it is below 4). */
  predicate RowDecodes(row: seq<real>)
  {
    |row| > 0 && ArgMax(row) < 4
  }

  /** The generator inside `''.join(...)`: None as soon as one row raises. */
  function DecodeRows(rows: seq<seq<real>>): (r: Option<string>)
    ensures r.Some? <==> forall i :: 0 <= i < |rows| ==> RowDecodes(rows[i])
    ensures r.Some? ==> (|r.value| == |rows| &&
      forall i :: 0 <= i < |rows| ==> r.value[i] == NUCLEOTIDES[ArgMax(rows[i])])
    decreases |rows|
  {
    if rows == [] then Some([])
    else if !RowDecodes(rows[0]) then None
    else match DecodeRows(rows[1..])
      case None =>
        assert forall i :: 1 <= i < |rows| ==> rows[1..][i - 1] == rows[i];
        None
      case Some(tail) => Some([NUCLEOTIDES[ArgMax(rows[0])]] + tail)
  }

  /** `decode_seqlet`: one letter per row, the letter of the row's first
      maximum; "" for a non-array argument or when some row cannot be decoded. */
  function DecodeSeqlet(x: OneHot): (s: string)
    ensures x.NotAnArray? ==> s == ""
    ensures x.NdArray? && (forall i :: 0 <= i < |x.rows| ==> RowDecodes(x.rows[i])) ==>
      |s| == |x.rows| && forall i :: 0 <= i < |x.rows| ==> s[i] == NUCLEOTIDES[ArgMax(x.rows[i])]
    ensures x.NdArray? && (exists i :: 0 <= i < |x.rows| && !RowDecodes(x.rows[i])) ==> s == ""
    ensures forall i :: 0 <= i < |s| ==> s[i] in NUCLEOTIDES
  {
    match x
    case NotAnArray => ""
    case NdArray(rows) =>
      match DecodeRows(rows)
      case None => ""
      case Some(s) => s
  }

  // ---------------------------------------------------------------------
  // run_blast_with_shift

  /** The number of positions `i < k` at which `a` and `b` agree. */
  function MatchesUpTo(a: string, b: string, k: nat): (m: nat)
    requires k <= |a| && k <= |b|
    ensures m <= k
  {
    if k == 0 then 0
    else MatchesUpTo(a, b, k - 1) + (if a[k - 1] == b[k - 1] then 1 else 0)
  }

  /** `sum(1 for a, b in zip(x, y) if a == b)`. */
  function ZipMatches(a: string, b: string): nat
  {
    MatchesUpTo(a, b, if |a| <= |b| then |a| else |b|)
  }

  /** Every one of the first k positions agrees exactly when the count is k. */
  lemma {:induction false} AllMatch(a: string, b: string, k: nat)
    requires k <= |a| && k <= |b|
    ensures MatchesUpTo(a, b, k) == k <==> a[..k] == b[..k]
  {
    if k > 0 {
      AllMatch(a, b, k - 1);
      assert a[..k] == a[..k - 1] + [a[k - 1]] && b[..k] == b[..k - 1] + [b[k - 1]];
      if a[..k] == b[..k] {
        assert a[..k - 1] == a[..k][..k - 1] && b[..k - 1] == b[..k][..k - 1];
      }
    }
  }

  /** The loop of `sum(...)` in `run_blast_with_shift`. */
  method CountMatches(a: string, b: string) returns (m: nat)
    ensures m == ZipMatches(a, b)
  {
    var n := if |a| <= |b| then |a| else |b|;
    m := 0;
    var i := 0;
    while i < n
      invariant 0 <= i <= n
      invariant m == MatchesUpTo(a, b, i)
    {
      if a[i] == b[i] {
        m := m + 1;
      }
      i := i + 1;
    }
  }

  /** The similarity, in percent, of `seqlet` placed at offset `start`. */
  function Similarity(seqlet: string, isoform: string, start: nat): real
    requires 0 < |seqlet| && start + |seqlet| <= |isoform|
  {
    ZipMatches(seqlet, isoform[start..start + |seqlet|]) as real / |seqlet| as real * 100.0
  }

  /** A similarity lies in [0, 100] and is 100 exactly at a verbatim occurrence. */
  lemma SimilarityRange(seqlet: string, isoform: string, start: nat)
    requires 0 < |seqlet| && start + |seqlet| <= |isoform|
    ensures 0.0 <= Similarity(seqlet, isoform, start) <= 100.0
    ensures Similarity(seqlet, isoform, start) == 100.0 <==>
            isoform[start..start + |seqlet|] == seqlet
  {
    var aligned := isoform[start..start + |seqlet|];
    var n := |seqlet|;
    AllMatch(seqlet, aligned, n);
    assert seqlet[..n] == seqlet && aligned[..n] == aligned;
    PercentRange(ZipMatches(seqlet, aligned), n);
  }

  /** `m / n * 100` for `0 <= m <= n` lies in [0, 100] and is 100 only when m == n. */
  lemma PercentRange(m: nat, n: nat)
    requires 0 < n && m <= n
    ensures 0.0 <= m as real / n as real * 100.0 <= 100.0
    ensures m as real / n as real * 100.0 == 100.0 <==> m == n
  {
    var q := m as real / n as real;
    assert q * n as real == m as real;
    assert 0.0 <= q <= 1.0;
    if q * 100.0 == 100.0 {
      assert q == 1.0;
    }
  }

  /** The state of the `for start` loop after the offsets `0 .. n-1`:
      the best similarity so far and the offset that first reached it. */
  function Scan(seqlet: string, isoform: string, n: nat): (real, nat)
    requires 0 < |seqlet| <= |isoform| && n <= |isoform| - |seqlet| + 1
  {
    if n == 0 then (0.0, 0)
    else
      var prev := Scan(seqlet, isoform, n - 1);
      var score := Similarity(seqlet, isoform, n - 1);
      if score > prev.0 then (score, n - 1) else prev
  }

  /** After at least one offset, the scan holds the maximum similarity and the
      lowest offset that attains it (offset 0 when every similarity is 0). */
  lemma {:induction false} ScanIsFirstMaximum(seqlet: string, isoform: string, n: nat)
    requires 0 < |seqlet| <= |isoform| && 0 < n <= |isoform| - |seqlet| + 1
    ensures Scan(seqlet, isoform, n).1 < n
    ensures Scan(seqlet, isoform, n).0 == Similarity(seqlet, isoform, Scan(seqlet, isoform, n).1)
    ensures forall o :: 0 <= o < n ==> Similarity(seqlet, isoform, o) <= Scan(seqlet, isoform, n).0
    ensures forall o :: 0 <= o < Scan(seqlet, isoform, n).1 ==>
              Similarity(seqlet, isoform, o) < Scan(seqlet, isoform, n).0
  {
    SimilarityRange(seqlet, isoform, n - 1);
    if n > 1 {
      ScanIsFirstMaximum(seqlet, isoform, n - 1);
    }
  }

  /** What `run_blast_with_shift` returns: the verdict, the best similarity and its offset. */
  datatype Blast = Blast(isMatch: bool, similarity: real, start: nat)

  /** `run_blast_with_shift` as a function: a seqlet longer than the isoform
      gives `(False, 0, 0)`; an empty one divides by zero at the first offset. */
  function BlastWithShift(seqlet: string, isoform: string, threshold: real): Result<Blast>
  {
    if |seqlet| > |isoform| then Ok(Blast(false, 0.0, 0))
    else if seqlet == [] then Err(ZeroDivisionError)
    else
      var (best, start) := Scan(seqlet, isoform, |isoform| - |seqlet| + 1);
      Ok(Blast(best >= threshold, best, start))
  }

  /** The alignment scan: slide the seqlet over every offset, keep the first
      offset whose similarity is strictly greater than the best so far. */
  method RunBlastWithShift(seqlet: string, isoform: string, threshold: real) returns (r: Result<Blast>)
    ensures r == BlastWithShift(seqlet, isoform, threshold)
  {
    if |seqlet| > |isoform| {
      return Ok(Blast(false, 0.0, 0));
    }
    var best: real, bestStart: nat := 0.0, 0;
    var start := 0;
    while start < |isoform| - |seqlet| + 1
      invariant 0 <= start <= |isoform| - |seqlet| + 1
      invariant start > 0 ==> |seqlet| > 0
      invariant |seqlet| > 0 ==> (best, bestStart) == Scan(seqlet, isoform, start)
    {
      var aligned := isoform[start..start + |seqlet|];
      var matches := CountMatches(seqlet, aligned);
      if |seqlet| == 0 {
        return Err(ZeroDivisionError);
      }
      var score := matches as real / |seqlet| as real * 100.0;
      if score > best {
        best, bestStart := score, start;
      }
      start := start + 1;
    }
    return Ok(Blast(best >= threshold, best, bestStart));
  }

  /** The whole contract of `run_blast_with_shift`, stated outright. */
  lemma BlastWithShiftIsFirstBest(seqlet: string, isoform: string, threshold: real)
    ensures |seqlet| > |isoform| ==> BlastWithShift(seqlet, isoform, threshold) == Ok(Blast(false, 0.0, 0))
    ensures seqlet == [] ==> BlastWithShift(seqlet, isoform, threshold) == Err(ZeroDivisionError)
    ensures 0 < |seqlet| <= |isoform| ==>
      var r := BlastWithShift(seqlet, isoform, threshold);
      r.Ok? && r.value.start <= |isoform| - |seqlet| &&
      0.0 <= r.value.similarity <= 100.0 &&
      r.value.similarity == Similarity(seqlet, isoform, r.value.start) &&
      (forall o :: 0 <= o <= |isoform| - |seqlet| ==> Similarity(seqlet, isoform, o) <= r.value.similarity) &&
      (forall o :: 0 <= o < r.value.start ==> Similarity(seqlet, isoform, o) < r.value.similarity) &&
      r.value.isMatch == (r.value.similarity >= threshold)
  {
    if 0 < |seqlet| <= |isoform| {
      var n := |isoform| - |seqlet| + 1;
      ScanIsFirstMaximum(seqlet, isoform, n);
      SimilarityRange(seqlet, isoform, Scan(seqlet, isoform, n).1);
    }
  }

  /** `seqlet` occurs verbatim in `isoform` at offset `o`. */
  predicate OccursAt(seqlet: string, isoform: string, o: int)
  {
    0 <= o <= |isoform| - |seqlet| && isoform[o..o + |seqlet|] == seqlet
  }

  /** The best similarity is 100 exactly when the seqlet occurs verbatim. */
  lemma BestIsFullIffVerbatim(seqlet: string, isoform: string, threshold: real)
    requires 0 < |seqlet| <= |isoform|
    ensures BlastWithShift(seqlet, isoform, threshold).value.similarity == 100.0 <==>
            exists o :: OccursAt(seqlet, isoform, o)
  {
    BlastWithShiftIsFirstBest(seqlet, isoform, threshold);
    var b := BlastWithShift(seqlet, isoform, threshold).value;
    SimilarityRange(seqlet, isoform, b.start);
    if b.similarity == 100.0 {
      assert OccursAt(seqlet, isoform, b.start);
    }
    if exists o :: OccursAt(seqlet, isoform, o) {
      var o :| OccursAt(seqlet, isoform, o);
      SimilarityRange(seqlet, isoform, o);
      assert Similarity(seqlet, isoform, o) <= b.similarity;
    }
  }

  /** The worked example: "GCAC" sits at the very start of isoform tn5_1. */
  lemma ExampleExactAtOffsetZero()
    ensures BlastWithShift("GCAC", TN5_ISOFORMS[0], 100.0) == Ok(Blast(true, 100.0, 0))
  {
    var s, iso := "GCAC", TN5_ISOFORMS[0];
    BlastWithShiftIsFirstBest(s, iso, 100.0);
    SimilarityRange(s, iso, 0);
    assert iso[0..4] == s;
  }

  /** A tie between offsets 0 and 2 of "ACAC" ("AC" matches fully at both)
      is resolved to offset 0. */
  lemma ExampleTieKeepsLowestOffset()
    ensures BlastWithShift("AC", "ACAC", 0.0) == Ok(Blast(true, 100.0, 0))
  {
    var s, iso := "AC", "ACAC";
    BlastWithShiftIsFirstBest(s, iso, 0.0);
    SimilarityRange(s, iso, 0);
    SimilarityRange(s, iso, 2);
    assert iso[0..2] == s && iso[2..4] == s;
  }

  // ---------------------------------------------------------------------
  // run_blast_with_isoforms

  /** The seqlet counts as a match to `isoform` under `threshold`. */
  predicate IsHit(seqlet: string, isoform: string, threshold: real)
  {
    var r := BlastWithShift(seqlet, isoform, threshold);
    r.Ok? && r.value.isMatch
  }

  /** The isoforms of `panel` tried in order, stopping at the first hit; an
      exception of the alignment ends the search. */
  function ClassifyAgainst(seqlet: string, panel: seq<string>, threshold: real): Result<bool>
    decreases |panel|
  {
    if panel == [] then Ok(false)
    else match BlastWithShift(seqlet, panel[0], threshold)
      case Err(e) => Err(e)
      case Ok(b) => if b.isMatch then Ok(true) else ClassifyAgainst(seqlet, panel[1..], threshold)
  }

  /** `run_blast_with_isoforms` as a function. */
  function IsTn5Artifact(seqlet: string, threshold: real): Result<bool>
  {
    ClassifyAgainst(seqlet, TN5_ISOFORMS, threshold)
  }

  /** `run_blast_with_isoforms`: `examined` counts the isoforms aligned, so the
      contract says the search goes in list order and stops at the first hit. */
  method RunBlastWithIsoforms(seqlet: string, threshold: real) returns (r: Result<bool>, ghost examined: nat)
    ensures r == IsTn5Artifact(seqlet, threshold)
    ensures examined <= |TN5_ISOFORMS|
    ensures r == Ok(true) ==> (0 < examined && IsHit(seqlet, TN5_ISOFORMS[examined - 1], threshold) &&
      forall j :: 0 <= j < examined - 1 ==> !IsHit(seqlet, TN5_ISOFORMS[j], threshold))
    ensures r == Ok(false) ==> examined == |TN5_ISOFORMS|
  {
    var i := 0;
    examined := 0;
    while i < |TN5_ISOFORMS|
      invariant 0 <= i <= |TN5_ISOFORMS| && examined == i
      invariant forall j :: 0 <= j < i ==> !IsHit(seqlet, TN5_ISOFORMS[j], threshold)
      invariant IsTn5Artifact(seqlet, threshold) == ClassifyAgainst(seqlet, TN5_ISOFORMS[i..], threshold)
    {
      var b := RunBlastWithShift(seqlet, TN5_ISOFORMS[i], threshold);
      examined := examined + 1;
      assert TN5_ISOFORMS[i..][0] == TN5_ISOFORMS[i] && TN5_ISOFORMS[i..][1..] == TN5_ISOFORMS[i + 1..];
      if b.Err? {
        return Err(b.error), examined;
      }
      if b.value.isMatch {
        return Ok(true), examined;
      }
      i := i + 1;
    }
    return Ok(false), examined;
  }

  /** A non-empty seqlet never raises, and is flagged iff some isoform is a hit. */
  lemma {:induction false} ClassifyIffSomeHit(seqlet: string, panel: seq<string>, threshold: real)
    requires seqlet != []
    ensures ClassifyAgainst(seqlet, panel, threshold) ==
            Ok(exists i :: 0 <= i < |panel| && IsHit(seqlet, panel[i], threshold))
    decreases |panel|
  {
    if panel != [] {
      BlastWithShiftIsFirstBest(seqlet, panel[0], threshold);
      ClassifyIffSomeHit(seqlet, panel[1..], threshold);
      assert forall i :: 1 <= i < |panel| ==> panel[1..][i - 1] == panel[i];
    }
  }

  /** An empty seqlet (a failed decode) raises at the first isoform. */
  lemma EmptySeqletRaises(threshold: real)
    ensures IsTn5Artifact("", threshold) == Err(ZeroDivisionError)
  {
  }

  /** Whether the alignment is a hit is monotone in the threshold. */
  lemma HitMonotone(seqlet: string, isoform: string, t1: real, t2: real)
    requires t1 <= t2 && IsHit(seqlet, isoform, t2)
    ensures IsHit(seqlet, isoform, t1)
  {
  }

  /** Raising the threshold never turns a clean seqlet into an artifact. */
  lemma {:induction false} ClassifyMonotone(seqlet: string, panel: seq<string>, t1: real, t2: real)
    requires t1 <= t2
    ensures ClassifyAgainst(seqlet, panel, t2) == Ok(true) ==> ClassifyAgainst(seqlet, panel, t1) == Ok(true)
    ensures ClassifyAgainst(seqlet, panel, t1) == Ok(false) ==> ClassifyAgainst(seqlet, panel, t2) == Ok(false)
    decreases |panel|
  {
    if panel != [] {
      ClassifyMonotone(seqlet, panel[1..], t1, t2);
    }
  }

  /** A seqlet longer than 23 letters, the longest isoform, is never flagged. */
  lemma LongSeqletNeverFlagged(seqlet: string, threshold: real)
    requires |seqlet| > 23
    ensures IsTn5Artifact(seqlet, threshold) == Ok(false)
  {
    IsoformLengths();
    ClassifyIffSomeHit(seqlet, TN5_ISOFORMS, threshold);
  }

  /** A seqlet occurring verbatim in one of the isoforms is flagged for every
      threshold up to 100. */
  lemma VerbatimSeqletFlagged(seqlet: string, k: nat, o: nat, threshold: real)
    requires seqlet != [] && k < |TN5_ISOFORMS| && threshold <= 100.0
    requires OccursAt(seqlet, TN5_ISOFORMS[k], o)
    ensures IsTn5Artifact(seqlet, threshold) == Ok(true)
  {
    BestIsFullIffVerbatim(seqlet, TN5_ISOFORMS[k], threshold);
    BlastWithShiftIsFirstBest(seqlet, TN5_ISOFORMS[k], threshold);
    assert IsHit(seqlet, TN5_ISOFORMS[k], threshold);
    ClassifyIffSomeHit(seqlet, TN5_ISOFORMS, threshold);
  }

  // ---------------------------------------------------------------------
  // filter_and_copy_patterns

  /** A pattern of the HDF5 group: its `seqlets/sequence` dataset (seqlet,
      position, base) when present. The stores hold the pattern as it is. */
  datatype Tn5Pattern = Tn5Pattern(sequence: Option<seq<seq<seq<real>>>>)

  /** Where one pattern ends up. */
  datatype Route = ToValid | ToInvalid | Skipped

  /** The seqlet a pattern is judged by: its first one. Each pass of the
      seqlet loop ends in the NameError raised by `copy_logo_images`, which
      the per-pattern handler catches, so later seqlets are never reached. */
  function FirstSeqlet(p: Tn5Pattern): Option<string>
  {
    if p.sequence.None? || |p.sequence.value| == 0 then None
    else Some(DecodeSeqlet(NdArray(p.sequence.value[0])))
  }

  /** The routing decision: a missing dataset (KeyError), an empty seqlet
      array or a seqlet that decodes to "" (ZeroDivisionError) lands the pattern
      in neither store; otherwise it is invalid iff it is a TN5 artifact. */
  function RoutePattern(p: Tn5Pattern, threshold: real): (r: Route)
    ensures r == Skipped <==> FirstSeqlet(p) == None || FirstSeqlet(p) == Some("")
    ensures r == ToInvalid <==>
      FirstSeqlet(p).Some? && IsTn5Artifact(FirstSeqlet(p).value, threshold) == Ok(true)
    ensures r == ToValid <==>
      FirstSeqlet(p).Some? && IsTn5Artifact(FirstSeqlet(p).value, threshold) == Ok(false)
  {
    match FirstSeqlet(p)
    case None => Skipped
    case Some(s) =>
      assert s != [] ==> IsTn5Artifact(s, threshold).Ok? by {
        if s != [] { ClassifyIffSomeHit(s, TN5_ISOFORMS, threshold); }
      }
      match IsTn5Artifact(s, threshold)
      case Err(_) => Skipped
      case Ok(invalid) => if invalid then ToInvalid else ToValid
  }

  /** The two output stores, keyed by pattern name. */
  datatype Stores = Stores(valid: map<string, Tn5Pattern>, invalid: map<string, Tn5Pattern>)

  /** The stores after the patterns of `entries` were processed in order. */
  function Partition(entries: seq<(string, Tn5Pattern)>, threshold: real): Stores
    decreases |entries|
  {
    if entries == [] then Stores(map[], map[])
    else
      var prev := Partition(entries[..|entries| - 1], threshold);
      var (name, p) := entries[|entries| - 1];
      match RoutePattern(p, threshold)
      case ToValid => prev.(valid := prev.valid[name := p])
      case ToInvalid => prev.(invalid := prev.invalid[name := p])
      case Skipped => prev
  }

  /** The outcome of one run: the stores are created only once the group exists. */
  datatype Tn5Run = GroupNotFound | Partitioned(stores: Stores)

  /** `filter_and_copy_patterns` without the file system: `file` maps each
      top-level group name to the patterns it holds, in iteration order. */
  method FilterAndCopyPatterns(file: map<string, seq<(string, Tn5Pattern)>>, groupType: string, threshold: real)
    returns (run: Tn5Run)
    ensures groupType !in file ==> run == GroupNotFound
    ensures groupType in file ==> run == Partitioned(Partition(file[groupType], threshold))
  {
    if groupType !in file {
      return GroupNotFound;
    }
    var entries := file[groupType];
    var valid: map<string, Tn5Pattern> := map[];
    var invalid: map<string, Tn5Pattern> := map[];
    var i := 0;
    while i < |entries|
      invariant 0 <= i <= |entries|
      invariant Stores(valid, invalid) == Partition(entries[..i], threshold)
    {
      var (name, p) := entries[i];
      assert entries[..i + 1][..i] == entries[..i];
      if p.sequence.Some? && |p.sequence.value| > 0 {
        var seqlet := DecodeSeqlet(NdArray(p.sequence.value[0]));
        ghost var examined;
        var verdict;
        verdict, examined := RunBlastWithIsoforms(seqlet, threshold);
        if verdict.Ok? {
          if verdict.value {
            invalid := invalid[name := p];
          } else {
            valid := valid[name := p];
          }
        }
      }
      i := i + 1;
    }
    assert entries[..i] == entries;
    return Partitioned(Stores(valid, invalid));
  }

  /** Only names of processed patterns are keys of the stores. */
  lemma {:induction false} PartitionKeys(entries: seq<(string, Tn5Pattern)>, threshold: real)
    ensures forall n :: n in Partition(entries, threshold).valid ==> NameIn(entries, n)
    ensures forall n :: n in Partition(entries, threshold).invalid ==> NameIn(entries, n)
    decreases |entries|
  {
    if entries != [] {
      var init := entries[..|entries| - 1];
      PartitionKeys(init, threshold);
      forall n | NameIn(init, n) ensures NameIn(entries, n) {
        var k :| 0 <= k < |init| && init[k].0 == n;
        assert entries[k].0 == n;
      }
      assert entries[|entries| - 1].0 == entries[|entries| - 1].0;
    }
  }

  /** The `k`-th pattern is in the store its route names, under its own name
      and unchanged, and not in the other one. */
  lemma {:induction false} PartitionAt(entries: seq<(string, Tn5Pattern)>, threshold: real, k: nat)
    requires DistinctNames(entries) && k < |entries|
    ensures var s := Partition(entries, threshold);
      (entries[k].0 in s.valid <==> RoutePattern(entries[k].1, threshold) == ToValid) &&
      (entries[k].0 in s.invalid <==> RoutePattern(entries[k].1, threshold) == ToInvalid) &&
      (entries[k].0 in s.valid ==> s.valid[entries[k].0] == entries[k].1) &&
      (entries[k].0 in s.invalid ==> s.invalid[entries[k].0] == entries[k].1)
    decreases |entries|
  {
    var init := entries[..|entries| - 1];
    assert DistinctNames(init);
    if k == |entries| - 1 {
      PartitionKeys(init, threshold);
      forall j | 0 <= j < |init| ensures init[j].0 != entries[k].0 {
        assert init[j] == entries[j];
      }
    } else {
      PartitionAt(init, threshold, k);
      assert init[k] == entries[k];
    }
  }

  /** Each pattern is in the invalid store iff its route says so, in the valid
      store iff its route says so, under its own name and unchanged; nothing
      else is in either store, and no pattern is in both. */
  lemma PartitionMembership(entries: seq<(string, Tn5Pattern)>, threshold: real)
    requires DistinctNames(entries)
    ensures var s := Partition(entries, threshold);
      (forall k :: 0 <= k < |entries| ==>
        (entries[k].0 in s.valid <==> RoutePattern(entries[k].1, threshold) == ToValid) &&
        (entries[k].0 in s.invalid <==> RoutePattern(entries[k].1, threshold) == ToInvalid)) &&
      (forall k :: 0 <= k < |entries| && entries[k].0 in s.valid ==> s.valid[entries[k].0] == entries[k].1) &&
      (forall k :: 0 <= k < |entries| && entries[k].0 in s.invalid ==> s.invalid[entries[k].0] == entries[k].1) &&
      (forall n :: n in s.valid ==> NameIn(entries, n)) &&
      (forall n :: n in s.invalid ==> NameIn(entries, n)) &&
      s.valid.Keys !! s.invalid.Keys
  {
    PartitionKeys(entries, threshold);
    forall k | 0 <= k < |entries| {
      PartitionAt(entries, threshold, k);
    }
    var s := Partition(entries, threshold);
    forall n | n in s.valid ensures n !in s.invalid {
      var k :| 0 <= k < |entries| && entries[k].0 == n;
    }
  }

  /** Raising the threshold moves patterns from invalid to valid only. */
  lemma PartitionMonotone(entries: seq<(string, Tn5Pattern)>, t1: real, t2: real)
    requires DistinctNames(entries) && t1 <= t2
    ensures Partition(entries, t2).invalid.Keys <= Partition(entries, t1).invalid.Keys
    ensures Partition(entries, t1).valid.Keys <= Partition(entries, t2).valid.Keys
  {
    PartitionMembership(entries, t1);
    PartitionMembership(entries, t2);
    forall k | 0 <= k < |entries|
      ensures RoutePattern(entries[k].1, t2) == ToInvalid ==> RoutePattern(entries[k].1, t1) == ToInvalid
      ensures RoutePattern(entries[k].1, t1) == ToValid ==> RoutePattern(entries[k].1, t2) == ToValid
    {
      var f := FirstSeqlet(entries[k].1);
      if f.Some? {
        ClassifyMonotone(f.value, TN5_ISOFORMS, t1, t2);
      }
    }
  }
}
