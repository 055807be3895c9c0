/** The q-value filter: a motif is valid when one of its three match
    q-values is strictly below the threshold. Every top-level entry of the file
    is copied into the valid or the invalid store and its two logos into the
    matching image directory; a missing q-value raises a KeyError that ends the
    whole loop. */
module QvalFilter {
  import opened Common

  /** The default of the `threshold` parameter. */
  const DEFAULT_THRESHOLD: real := 0.0001

  /** A motif: its `qval0`, `qval1` and `qval2` datasets when present. The
      stores hold the motif as it is. */
  datatype Motif = Motif(qval0: Option<real>, qval1: Option<real>, qval2: Option<real>)
  {
    /** All three q-values are read before the comparison, so any missing one raises. */
    predicate MissingQval() { qval0.None? || qval1.None? || qval2.None? }
    predicate HasQvals() { !MissingQval() }
  }

  /** `qval0 < threshold or qval1 < threshold or qval2 < threshold`. */
  predicate PassesQval(m: Motif, threshold: real)
    requires m.HasQvals()
  {
    m.qval0.value < threshold || m.qval1.value < threshold || m.qval2.value < threshold
  }

  function Min3(a: real, b: real, c: real): (r: real)
    ensures r <= a && r <= b && r <= c
    ensures r == a || r == b || r == c
  {
    if a <= b && a <= c then a else if b <= c then b else c
  }

  /** The test is the smallest q-value being below the threshold, so a q-value
      equal to the threshold does not pass. */
  lemma PassesIffMinBelow(m: Motif, threshold: real)
    requires m.HasQvals()
    ensures PassesQval(m, threshold) <==> Min3(m.qval0.value, m.qval1.value, m.qval2.value) < threshold
  {
  }

  /** Raising the threshold keeps a valid motif valid. */
  lemma PassesMonotone(m: Motif, t1: real, t2: real)
    requires m.HasQvals() && t1 <= t2 && PassesQval(m, t1)
    ensures PassesQval(m, t2)
  {
  }

  /** The forward and reverse logo of a motif: no group prefix. */
  function LogoPaths(baseLogoDir: string, patternName: string): seq<string>
  {
    [PathJoin(baseLogoDir, patternName + ".cwm.fwd.png"),
     PathJoin(baseLogoDir, patternName + ".cwm.rev.png")]
  }

  /** `copy_motif_images`: the logos that exist go to the valid image directory
      iff the motif is valid; a missing logo is skipped. */
  method CopyMotifImages(patternName: string, validImageDir: string, invalidImageDir: string,
                         isValid: bool, baseLogoDir: string, existing: set<string>)
    returns (copies: seq<LogoCopy>)
    ensures copies == CopiesInto(
      [PathJoin(baseLogoDir, patternName + ".cwm.fwd.png"),
       PathJoin(baseLogoDir, patternName + ".cwm.rev.png")],
      if isValid then validImageDir else invalidImageDir, existing)
  {
    var paths := LogoPaths(baseLogoDir, patternName);
    var targetDir := TargetDir(validImageDir, invalidImageDir, isValid);
    copies := CopyExisting(paths, targetDir, existing);
  }

  /** The parameters of one run besides the motifs. */
  datatype Config = Config(outputDir: string, baseLogoDir: string, existingLogos: set<string>, threshold: real)
  {
    function ValidImageDir(): string { PathJoin(outputDir, "valid_images") }
    function InvalidImageDir(): string { PathJoin(outputDir, "invalid_images") }
  }

  /** How the loop ended. */
  datatype Outcome = Completed | MissingQval(pattern: string)

  /** The two stores, the logo copies performed, and how the loop ended. */
  datatype QvalRun = QvalRun(valid: map<string, Motif>, invalid: map<string, Motif>,
                             logos: seq<LogoCopy>, outcome: Outcome)

  /** The state after the loop body has run on `entries` in order. */
  function Partition(entries: seq<(string, Motif)>, cfg: Config): QvalRun
    decreases |entries|
  {
    if entries == [] then QvalRun(map[], map[], [], Completed)
    else
      var prev := Partition(entries[..|entries| - 1], cfg);
      var (name, m) := entries[|entries| - 1];
      if prev.outcome != Completed then prev
      else if m.MissingQval() then prev.(outcome := MissingQval(name))
      else
        var ok := PassesQval(m, cfg.threshold);
        var copies := CopiesInto(LogoPaths(cfg.baseLogoDir, name),
                                 TargetDir(cfg.ValidImageDir(), cfg.InvalidImageDir(), ok),
                                 cfg.existingLogos);
        if ok then prev.(valid := prev.valid[name := m], logos := prev.logos + copies)
        else prev.(invalid := prev.invalid[name := m], logos := prev.logos + copies)
  }

  /** `filter_and_copy_motifs` without the file system: `entries` are the
      top-level entries of the input file in iteration order. */
  method FilterAndCopyMotifs(entries: seq<(string, Motif)>, cfg: Config) returns (run: QvalRun)
    ensures run == Partition(entries, cfg)
  {
    var validImageDir := PathJoin(cfg.outputDir, "valid_images");
    var invalidImageDir := PathJoin(cfg.outputDir, "invalid_images");
    var valid: map<string, Motif> := map[];
    var invalid: map<string, Motif> := map[];
    var logos: seq<LogoCopy> := [];
    var i := 0;
    while i < |entries|
      invariant 0 <= i <= |entries|
      invariant Partition(entries[..i], cfg) == QvalRun(valid, invalid, logos, Completed)
    {
      var (name, m) := entries[i];
      assert entries[..i + 1][..i] == entries[..i];
      if m.qval0.None? || m.qval1.None? || m.qval2.None? {
        AbortIsFinal(entries, cfg, i + 1);
        return QvalRun(valid, invalid, logos, MissingQval(name));
      }
      var isValid := m.qval0.value < cfg.threshold || m.qval1.value < cfg.threshold ||
                     m.qval2.value < cfg.threshold;
      if isValid {
        valid := valid[name := m];
      } else {
        invalid := invalid[name := m];
      }
      var copies := CopyMotifImages(name, validImageDir, invalidImageDir, isValid,
                                    cfg.baseLogoDir, cfg.existingLogos);
      logos := logos + copies;
      i := i + 1;
    }
    assert entries[..i] == entries;
    return QvalRun(valid, invalid, logos, Completed);
  }

  /** Once the loop has been aborted, later patterns change nothing. */
  lemma {:induction false} AbortIsFinal(entries: seq<(string, Motif)>, cfg: Config, j: nat)
    requires j <= |entries| && Partition(entries[..j], cfg).outcome != Completed
    ensures Partition(entries, cfg) == Partition(entries[..j], cfg)
    decreases |entries| - j
  {
    if j < |entries| {
      assert entries[..j + 1][..j] == entries[..j];
      AbortIsFinal(entries, cfg, j + 1);
    } else {
      assert entries[..j] == entries;
    }
  }

  /** The index of the first pattern lacking one of its q-values, or the
      number of patterns when there is none. */
  function FirstMissing(entries: seq<(string, Motif)>): (k: nat)
    ensures k <= |entries|
    ensures forall j :: 0 <= j < k ==> entries[j].1.HasQvals()
    ensures k < |entries| ==> entries[k].1.MissingQval()
    decreases |entries|
  {
    if entries == [] then 0
    else
      var init := entries[..|entries| - 1];
      var f := FirstMissing(init);
      assert forall j :: 0 <= j < |init| ==> init[j] == entries[j];
      if f < |init| then f
      else if entries[|entries| - 1].1.MissingQval() then |init|
      else |entries|
  }

  /** The loop ends early exactly at the first pattern that lacks a q-value. */
  lemma {:induction false} PartitionOutcome(entries: seq<(string, Motif)>, cfg: Config)
    ensures var k := FirstMissing(entries);
      (Partition(entries, cfg).outcome == Completed <==> k == |entries|) &&
      (k < |entries| ==> Partition(entries, cfg).outcome == MissingQval(entries[k].0))
    decreases |entries|
  {
    if entries != [] {
      var init := entries[..|entries| - 1];
      PartitionOutcome(init, cfg);
      assert forall j :: 0 <= j < |init| ==> init[j] == entries[j];
    }
  }

  /** Only names of processed patterns are keys of the stores. */
  lemma {:induction false} PartitionKeys(entries: seq<(string, Motif)>, cfg: Config)
    ensures forall n :: n in Partition(entries, cfg).valid ==> NameIn(entries, n)
    ensures forall n :: n in Partition(entries, cfg).invalid ==> NameIn(entries, n)
    decreases |entries|
  {
    if entries != [] {
      var init := entries[..|entries| - 1];
      PartitionKeys(init, cfg);
      forall n | NameIn(init, n) ensures NameIn(entries, n) {
        var k :| 0 <= k < |init| && init[k].0 == n;
        assert entries[k].0 == n;
      }
      assert entries[|entries| - 1].0 == entries[|entries| - 1].0;
    }
  }

  /** The `k`-th motif is in the valid store iff it comes before the first
      missing q-value and passes, in the invalid store iff it comes before it and
      does not pass, and it is stored unchanged under its own name. */
  lemma {:induction false} PartitionAt(entries: seq<(string, Motif)>, cfg: Config, k: nat)
    requires DistinctNames(entries) && k < |entries|
    ensures var s := Partition(entries, cfg);
      var before := k < FirstMissing(entries);
      (entries[k].0 in s.valid <==>
        before && PassesQval(entries[k].1, cfg.threshold)) &&
      (entries[k].0 in s.invalid <==>
        before && !PassesQval(entries[k].1, cfg.threshold)) &&
      (entries[k].0 in s.valid ==> s.valid[entries[k].0] == entries[k].1) &&
      (entries[k].0 in s.invalid ==> s.invalid[entries[k].0] == entries[k].1)
    decreases |entries|
  {
    var init := entries[..|entries| - 1];
    var last := |entries| - 1;
    var prev := Partition(init, cfg);
    var name := entries[k].0;
    assert DistinctNames(init);
    assert forall j :: 0 <= j < |init| ==> init[j] == entries[j];
    PartitionOutcome(init, cfg);
    if prev.outcome != Completed {
      assert Partition(entries, cfg) == prev;
      assert FirstMissing(entries) == FirstMissing(init) < |init|;
      if k < last {
        PartitionAt(init, cfg, k);
      } else {
        PartitionKeys(init, cfg);
        assert !NameIn(init, name) by {
          forall j | 0 <= j < |init| ensures init[j].0 != name { }
        }
      }
    } else if entries[last].1.MissingQval() {
      assert Partition(entries, cfg).valid == prev.valid && Partition(entries, cfg).invalid == prev.invalid;
      assert FirstMissing(entries) == |init|;
      if k < last {
        PartitionAt(init, cfg, k);
      } else {
        PartitionKeys(init, cfg);
        assert !NameIn(init, name) by {
          forall j | 0 <= j < |init| ensures init[j].0 != name { }
        }
      }
    } else {
      assert FirstMissing(entries) == |entries|;
      if k < last {
        PartitionAt(init, cfg, k);
        assert entries[last].0 != name;
      } else {
        PartitionKeys(init, cfg);
        assert !NameIn(init, name) by {
          forall j | 0 <= j < |init| ensures init[j].0 != name { }
        }
      }
    }
  }

  /** Every processed pattern is in exactly one store, patterns from the first
      missing q-value on are in neither, and the stores hold nothing else. */
  lemma PartitionMembership(entries: seq<(string, Motif)>, cfg: Config)
    requires DistinctNames(entries)
    ensures var s := Partition(entries, cfg);
      (forall k :: 0 <= k < |entries| ==>
        (entries[k].0 in s.valid || entries[k].0 in s.invalid <==> k < FirstMissing(entries))) &&
      (forall k :: 0 <= k < FirstMissing(entries) ==>
        (entries[k].0 in s.valid <==> PassesQval(entries[k].1, cfg.threshold))) &&
      (forall n :: n in s.valid ==> NameIn(entries, n)) &&
      (forall n :: n in s.invalid ==> NameIn(entries, n)) &&
      s.valid.Keys !! s.invalid.Keys
  {
    PartitionKeys(entries, cfg);
    forall k | 0 <= k < |entries| {
      PartitionAt(entries, cfg, k);
    }
    var s := Partition(entries, cfg);
    forall n | n in s.valid ensures n !in s.invalid {
      var k :| 0 <= k < |entries| && entries[k].0 == n;
    }
  }

  /** Raising the threshold moves motifs from invalid to valid, never back. */
  lemma PartitionMonotone(entries: seq<(string, Motif)>, cfg: Config, t1: real, t2: real)
    requires DistinctNames(entries) && t1 <= t2
    ensures Partition(entries, cfg.(threshold := t1)).valid.Keys <= Partition(entries, cfg.(threshold := t2)).valid.Keys
    ensures Partition(entries, cfg.(threshold := t2)).invalid.Keys <= Partition(entries, cfg.(threshold := t1)).invalid.Keys
  {
    var c1, c2 := cfg.(threshold := t1), cfg.(threshold := t2);
    PartitionKeys(entries, c1);
    PartitionKeys(entries, c2);
    forall n | n in Partition(entries, c1).valid ensures n in Partition(entries, c2).valid {
      var k :| 0 <= k < |entries| && entries[k].0 == n;
      PartitionAt(entries, c1, k);
      PartitionAt(entries, c2, k);
    }
    forall n | n in Partition(entries, c2).invalid ensures n in Partition(entries, c1).invalid {
      var k :| 0 <= k < |entries| && entries[k].0 == n;
      PartitionAt(entries, c1, k);
      PartitionAt(entries, c2, k);
    }
  }

  /** The image directory the logos of motif `m` go to. */
  function LogoDir(m: Motif, cfg: Config): string
    requires m.HasQvals()
  {
    TargetDir(cfg.ValidImageDir(), cfg.InvalidImageDir(), PassesQval(m, cfg.threshold))
  }

  /** `c` copies one of the logos of the `k`-th motif into that motif's image directory. */
  predicate LogoOf(entries: seq<(string, Motif)>, cfg: Config, k: int, c: LogoCopy)
  {
    0 <= k < |entries| && entries[k].1.HasQvals() &&
    c.source in LogoPaths(cfg.baseLogoDir, entries[k].0) && c.targetDir == LogoDir(entries[k].1, cfg)
  }

  /** What processing the last motif adds to the run: the earlier copies stay
      in front, and new copies appear only when no q-value is missing so far. */
  lemma LastStep(entries: seq<(string, Motif)>, cfg: Config)
    requires entries != []
    ensures var init := entries[..|entries| - 1];
      var prev := Partition(init, cfg);
      var s := Partition(entries, cfg);
      var f := FirstMissing(entries);
      prev.logos <= s.logos &&
      (f < |init| ==> FirstMissing(init) == f) &&
      (f >= |init| ==> FirstMissing(init) == |init|) &&
      (f < |entries| ==> s.logos == prev.logos) &&
      (f == |entries| ==>
        s.logos == prev.logos + CopiesInto(LogoPaths(cfg.baseLogoDir, entries[|entries| - 1].0),
                                           LogoDir(entries[|entries| - 1].1, cfg), cfg.existingLogos))
  {
    PartitionOutcome(entries[..|entries| - 1], cfg);
  }

  /** Every copy made is an existing logo of a motif processed before the
      first missing q-value, copied into that motif's image directory. */
  lemma {:induction false} PartitionLogosSound(entries: seq<(string, Motif)>, cfg: Config)
    ensures forall c :: c in Partition(entries, cfg).logos ==>
      c.source in cfg.existingLogos &&
      exists k :: k < FirstMissing(entries) && LogoOf(entries, cfg, k, c)
    decreases |entries|
  {
    if entries != [] {
      var init := entries[..|entries| - 1];
      var last := |entries| - 1;
      PartitionLogosSound(init, cfg);
      LastStep(entries, cfg);
      forall k, c | LogoOf(init, cfg, k, c) ensures LogoOf(entries, cfg, k, c) {
        assert init[k] == entries[k];
      }
      if FirstMissing(entries) == |entries| {
        var copies := CopiesInto(LogoPaths(cfg.baseLogoDir, entries[|entries| - 1].0), LogoDir(entries[last].1, cfg), cfg.existingLogos);
        forall c | c in copies ensures LogoOf(entries, cfg, last, c) { }
      }
    }
  }

  /** One existing logo of a motif processed before the first missing
      q-value is copied into that motif's image directory. */
  lemma {:induction false} PartitionLogoAt(entries: seq<(string, Motif)>, cfg: Config, k: nat, path: string)
    requires k < FirstMissing(entries)
    requires path in LogoPaths(cfg.baseLogoDir, entries[k].0) && path in cfg.existingLogos
    ensures LogoCopy(path, LogoDir(entries[k].1, cfg)) in Partition(entries, cfg).logos
    decreases |entries|
  {
    var init := entries[..|entries| - 1];
    LastStep(entries, cfg);
    if k < |init| {
      assert init[k] == entries[k];
      PartitionLogoAt(init, cfg, k, path);
    }
  }

  /** Every existing logo of a motif processed before the first missing
      q-value is copied into that motif's image directory. */
  lemma PartitionLogosComplete(entries: seq<(string, Motif)>, cfg: Config)
    ensures forall k, path ::
      (0 <= k < FirstMissing(entries) && path in LogoPaths(cfg.baseLogoDir, entries[k].0) &&
       path in cfg.existingLogos) ==>
      LogoCopy(path, LogoDir(entries[k].1, cfg)) in Partition(entries, cfg).logos
  {
    forall k, path | 0 <= k < FirstMissing(entries) && path in LogoPaths(cfg.baseLogoDir, entries[k].0) &&
                     path in cfg.existingLogos
      ensures LogoCopy(path, LogoDir(entries[k].1, cfg)) in Partition(entries, cfg).logos
    {
      PartitionLogoAt(entries, cfg, k, path);
    }
  }


  /** A motif whose smallest q-value equals the default threshold is invalid;
      one just below it is valid. */
  lemma ExampleBoundary(cfg: Config)
    requires cfg.threshold == DEFAULT_THRESHOLD
    ensures var s := Partition([("m0", Motif(Some(0.0001), Some(0.5), Some(1.0))),
                                ("m1", Motif(Some(0.5), Some(0.00009), Some(1.0)))], cfg);
      s.outcome == Completed &&
      "m0" in s.invalid && "m0" !in s.valid &&
      "m1" in s.valid && "m1" !in s.invalid
  {
    var es := [("m0", Motif(Some(0.0001), Some(0.5), Some(1.0))), ("m1", Motif(Some(0.5), Some(0.00009), Some(1.0)))];
    assert es[..1] == [es[0]] && es[..1][..0] == [];
  }
}
