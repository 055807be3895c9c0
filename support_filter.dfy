/** The support-count filter: a pattern is valid when at least `threshold`
    seqlets support it. Patterns are copied into the valid or the invalid store
    and their two logos into the matching image directory; a pattern without a
    `seqlets/n_seqlets` value raises a KeyError that ends the whole loop. */
module SupportFilter {
  import opened Common

  /** The default of the `threshold` parameter. */
  const DEFAULT_THRESHOLD: real := 100.0

  /** A pattern of the group: its `seqlets/n_seqlets` value when present.
      The stores hold the pattern as it is. */
  datatype CountedPattern = CountedPattern(nSeqlets: Option<int>)

  /** `is_valid = n_seqlets_value >= threshold`: non-strict. */
  predicate PassesSupport(nSeqlets: int, threshold: real)
  {
    nSeqlets as real >= threshold
  }

  /** The forward and reverse logo of a pattern under the base logo directory. */
  function LogoPaths(baseLogoDir: string, groupType: string, patternName: string): seq<string>
  {
    [PathJoin(baseLogoDir, groupType + "." + patternName + ".cwm.fwd.png"),
     PathJoin(baseLogoDir, groupType + "." + patternName + ".cwm.rev.png")]
  }

  /** `copy_logo_images`: the logos that exist go to the valid image directory
      iff the pattern is valid; a missing logo is skipped. */
  method CopyLogoImages(groupType: string, patternName: string, validImageDir: string,
                        invalidImageDir: string, isValid: bool, baseLogoDir: string,
                        existing: set<string>)
    returns (copies: seq<LogoCopy>)
    ensures copies == CopiesInto(
      [PathJoin(baseLogoDir, groupType + "." + patternName + ".cwm.fwd.png"),
       PathJoin(baseLogoDir, groupType + "." + patternName + ".cwm.rev.png")],
      if isValid then validImageDir else invalidImageDir, existing)
  {
    var paths := LogoPaths(baseLogoDir, groupType, patternName);
    var targetDir := TargetDir(validImageDir, invalidImageDir, isValid);
    copies := CopyExisting(paths, targetDir, existing);
  }

  /** The parameters of one run besides the patterns. */
  datatype Config = Config(groupType: string, outputDir: string, baseLogoDir: string,
                           existingLogos: set<string>, threshold: real)
  {
    function ValidImageDir(): string { PathJoin(outputDir, "valid_images") }
    function InvalidImageDir(): string { PathJoin(outputDir, "invalid_images") }
  }

  /** How the loop ended. */
  datatype Outcome = Completed | MissingCount(pattern: string) | GroupNotFound

  /** The two stores, the logo copies performed, and how the loop ended. */
  datatype SupportRun = SupportRun(valid: map<string, CountedPattern>, invalid: map<string, CountedPattern>,
                                   logos: seq<LogoCopy>, outcome: Outcome)

  /** The state after the loop body has run on `entries` in order. */
  function Partition(entries: seq<(string, CountedPattern)>, cfg: Config): SupportRun
    decreases |entries|
  {
    if entries == [] then SupportRun(map[], map[], [], Completed)
    else
      var prev := Partition(entries[..|entries| - 1], cfg);
      var (name, p) := entries[|entries| - 1];
      if prev.outcome != Completed then prev
      else if p.nSeqlets.None? then prev.(outcome := MissingCount(name))
      else
        var ok := PassesSupport(p.nSeqlets.value, cfg.threshold);
        var copies := CopiesInto(LogoPaths(cfg.baseLogoDir, cfg.groupType, name),
                                 TargetDir(cfg.ValidImageDir(), cfg.InvalidImageDir(), ok),
                                 cfg.existingLogos);
        if ok then prev.(valid := prev.valid[name := p], logos := prev.logos + copies)
        else prev.(invalid := prev.invalid[name := p], logos := prev.logos + copies)
  }

  /** `filter_and_copy_patterns` without the file system: `file` maps each
      top-level group to its patterns in iteration order. The output stores
      are opened before the group is looked up, so a missing group leaves
      them empty. */
  method FilterAndCopyPatterns(file: map<string, seq<(string, CountedPattern)>>, cfg: Config)
    returns (run: SupportRun)
    ensures cfg.groupType !in file ==> run == SupportRun(map[], map[], [], GroupNotFound)
    ensures cfg.groupType in file ==> run == Partition(file[cfg.groupType], cfg)
  {
    var validImageDir := PathJoin(cfg.outputDir, "valid_images");
    var invalidImageDir := PathJoin(cfg.outputDir, "invalid_images");
    if cfg.groupType !in file {
      return SupportRun(map[], map[], [], GroupNotFound);
    }
    var entries := file[cfg.groupType];
    var valid: map<string, CountedPattern> := map[];
    var invalid: map<string, CountedPattern> := map[];
    var logos: seq<LogoCopy> := [];
    var i := 0;
    while i < |entries|
      invariant 0 <= i <= |entries|
      invariant Partition(entries[..i], cfg) == SupportRun(valid, invalid, logos, Completed)
    {
      var (name, p) := entries[i];
      assert entries[..i + 1][..i] == entries[..i];
      if p.nSeqlets.None? {
        AbortIsFinal(entries, cfg, i + 1);
        return SupportRun(valid, invalid, logos, MissingCount(name));
      }
      var isValid := p.nSeqlets.value as real >= cfg.threshold;
      if isValid {
        valid := valid[name := p];
      } else {
        invalid := invalid[name := p];
      }
      var copies := CopyLogoImages(cfg.groupType, name, validImageDir, invalidImageDir, isValid,
                                   cfg.baseLogoDir, cfg.existingLogos);
      logos := logos + copies;
      i := i + 1;
    }
    assert entries[..i] == entries;
    return SupportRun(valid, invalid, logos, Completed);
  }

  /** Once the loop has been aborted, later patterns change nothing. */
  lemma {:induction false} AbortIsFinal(entries: seq<(string, CountedPattern)>, cfg: Config, j: nat)
    requires j <= |entries| && Partition(entries[..j], cfg).outcome != Completed
    ensures Partition(entries, cfg) == Partition(entries[..j], cfg)
    decreases |entries| - j
  {
    if j < |entries| {
      assert entries[..j + 1][..j] == entries[..j];
      AbortIsFinal(entries, cfg, j + 1);
    } else {
      assert entries[..j] == entries;
    }
  }

  /** The index of the first pattern without an `n_seqlets` value, or the
      number of patterns when there is none. */
  function FirstMissing(entries: seq<(string, CountedPattern)>): (k: nat)
    ensures k <= |entries|
    ensures forall j :: 0 <= j < k ==> entries[j].1.nSeqlets.Some?
    ensures k < |entries| ==> entries[k].1.nSeqlets.None?
    decreases |entries|
  {
    if entries == [] then 0
    else
      var init := entries[..|entries| - 1];
      var f := FirstMissing(init);
      assert forall j :: 0 <= j < |init| ==> init[j] == entries[j];
      if f < |init| then f
      else if entries[|entries| - 1].1.nSeqlets.None? then |init|
      else |entries|
  }

  /** The loop ends early exactly at the first pattern that lacks its count. */
  lemma {:induction false} PartitionOutcome(entries: seq<(string, CountedPattern)>, cfg: Config)
    ensures var k := FirstMissing(entries);
      (Partition(entries, cfg).outcome == Completed <==> k == |entries|) &&
      (k < |entries| ==> Partition(entries, cfg).outcome == MissingCount(entries[k].0))
    decreases |entries|
  {
    if entries != [] {
      var init := entries[..|entries| - 1];
      PartitionOutcome(init, cfg);
      assert forall j :: 0 <= j < |init| ==> init[j] == entries[j];
    }
  }

  /** Only names of processed patterns are keys of the stores. */
  lemma {:induction false} PartitionKeys(entries: seq<(string, CountedPattern)>, cfg: Config)
    ensures forall n :: n in Partition(entries, cfg).valid ==> NameIn(entries, n)
    ensures forall n :: n in Partition(entries, cfg).invalid ==> NameIn(entries, n)
    decreases |entries|
  {
    if entries != [] {
      var init := entries[..|entries| - 1];
      PartitionKeys(init, cfg);
      forall n | NameIn(init, n) ensures NameIn(entries, n) {
        var k :| 0 <= k < |init| && init[k].0 == n;
        assert entries[k].0 == n;
      }
      assert entries[|entries| - 1].0 == entries[|entries| - 1].0;
    }
  }

  /** The `k`-th pattern is in the valid store iff it comes before the first
      missing count and passes, in the invalid store iff it comes before it and
      does not pass, and it is stored unchanged under its own name. */
  lemma {:induction false} PartitionAt(entries: seq<(string, CountedPattern)>, cfg: Config, k: nat)
    requires DistinctNames(entries) && k < |entries|
    ensures var s := Partition(entries, cfg);
      var before := k < FirstMissing(entries);
      (entries[k].0 in s.valid <==>
        before && PassesSupport(entries[k].1.nSeqlets.value, cfg.threshold)) &&
      (entries[k].0 in s.invalid <==>
        before && !PassesSupport(entries[k].1.nSeqlets.value, cfg.threshold)) &&
      (entries[k].0 in s.valid ==> s.valid[entries[k].0] == entries[k].1) &&
      (entries[k].0 in s.invalid ==> s.invalid[entries[k].0] == entries[k].1)
    decreases |entries|
  {
    var init := entries[..|entries| - 1];
    var last := |entries| - 1;
    var prev := Partition(init, cfg);
    var name := entries[k].0;
    assert DistinctNames(init);
    assert forall j :: 0 <= j < |init| ==> init[j] == entries[j];
    PartitionOutcome(init, cfg);
    if prev.outcome != Completed {
      assert Partition(entries, cfg) == prev;
      assert FirstMissing(entries) == FirstMissing(init) < |init|;
      if k < last {
        PartitionAt(init, cfg, k);
      } else {
        PartitionKeys(init, cfg);
        assert !NameIn(init, name) by {
          forall j | 0 <= j < |init| ensures init[j].0 != name { }
        }
      }
    } else if entries[last].1.nSeqlets.None? {
      assert Partition(entries, cfg).valid == prev.valid && Partition(entries, cfg).invalid == prev.invalid;
      assert FirstMissing(entries) == |init|;
      if k < last {
        PartitionAt(init, cfg, k);
      } else {
        PartitionKeys(init, cfg);
        assert !NameIn(init, name) by {
          forall j | 0 <= j < |init| ensures init[j].0 != name { }
        }
      }
    } else {
      assert FirstMissing(entries) == |entries|;
      if k < last {
        PartitionAt(init, cfg, k);
        assert entries[last].0 != name;
      } else {
        PartitionKeys(init, cfg);
        assert !NameIn(init, name) by {
          forall j | 0 <= j < |init| ensures init[j].0 != name { }
        }
      }
    }
  }

  /** Every processed pattern is in exactly one store, patterns from the first
      missing count on are in neither, and the stores hold nothing else. */
  lemma PartitionMembership(entries: seq<(string, CountedPattern)>, cfg: Config)
    requires DistinctNames(entries)
    ensures var s := Partition(entries, cfg);
      (forall k :: 0 <= k < |entries| ==>
        (entries[k].0 in s.valid || entries[k].0 in s.invalid <==> k < FirstMissing(entries))) &&
      (forall k :: 0 <= k < FirstMissing(entries) ==>
        (entries[k].0 in s.valid <==> PassesSupport(entries[k].1.nSeqlets.value, cfg.threshold))) &&
      (forall n :: n in s.valid ==> NameIn(entries, n)) &&
      (forall n :: n in s.invalid ==> NameIn(entries, n)) &&
      s.valid.Keys !! s.invalid.Keys
  {
    PartitionKeys(entries, cfg);
    forall k | 0 <= k < |entries| {
      PartitionAt(entries, cfg, k);
    }
    var s := Partition(entries, cfg);
    forall n | n in s.valid ensures n !in s.invalid {
      var k :| 0 <= k < |entries| && entries[k].0 == n;
    }
  }

  /** The image directory the logos of pattern `p` go to. */
  function LogoDir(p: CountedPattern, cfg: Config): string
    requires p.nSeqlets.Some?
  {
    TargetDir(cfg.ValidImageDir(), cfg.InvalidImageDir(), PassesSupport(p.nSeqlets.value, cfg.threshold))
  }

  /** `c` copies one of the logos of the `k`-th pattern into that pattern's image directory. */
  predicate LogoOf(entries: seq<(string, CountedPattern)>, cfg: Config, k: int, c: LogoCopy)
  {
    0 <= k < |entries| && entries[k].1.nSeqlets.Some? &&
    c.source in LogoPaths(cfg.baseLogoDir, cfg.groupType, entries[k].0) &&
    c.targetDir == LogoDir(entries[k].1, cfg)
  }

  /** What processing the last pattern adds to the run: the earlier copies stay
      in front, and new copies appear only when no count is missing so far. */
  lemma LastStep(entries: seq<(string, CountedPattern)>, cfg: Config)
    requires entries != []
    ensures var init := entries[..|entries| - 1];
      var prev := Partition(init, cfg);
      var s := Partition(entries, cfg);
      var f := FirstMissing(entries);
      prev.logos <= s.logos &&
      (f < |init| ==> FirstMissing(init) == f) &&
      (f >= |init| ==> FirstMissing(init) == |init|) &&
      (f < |entries| ==> s.logos == prev.logos) &&
      (f == |entries| ==>
        s.logos == prev.logos + CopiesInto(LogoPaths(cfg.baseLogoDir, cfg.groupType, entries[|entries| - 1].0),
                                           LogoDir(entries[|entries| - 1].1, cfg), cfg.existingLogos))
  {
    PartitionOutcome(entries[..|entries| - 1], cfg);
  }

  /** Every copy made is an existing logo of a pattern processed before the
      first missing count, copied into that pattern's image directory. */
  lemma {:induction false} PartitionLogosSound(entries: seq<(string, CountedPattern)>, cfg: Config)
    ensures forall c :: c in Partition(entries, cfg).logos ==>
      c.source in cfg.existingLogos &&
      exists k :: k < FirstMissing(entries) && LogoOf(entries, cfg, k, c)
    decreases |entries|
  {
    if entries != [] {
      var init := entries[..|entries| - 1];
      var last := |entries| - 1;
      PartitionLogosSound(init, cfg);
      LastStep(entries, cfg);
      forall k, c | LogoOf(init, cfg, k, c) ensures LogoOf(entries, cfg, k, c) {
        assert init[k] == entries[k];
      }
      if FirstMissing(entries) == |entries| {
        var copies := CopiesInto(LogoPaths(cfg.baseLogoDir, cfg.groupType, entries[|entries| - 1].0), LogoDir(entries[last].1, cfg), cfg.existingLogos);
        forall c | c in copies ensures LogoOf(entries, cfg, last, c) { }
      }
    }
  }

  /** One existing logo of a pattern processed before the first missing
      count is copied into that pattern's image directory. */
  lemma {:induction false} PartitionLogoAt(entries: seq<(string, CountedPattern)>, cfg: Config, k: nat, path: string)
    requires k < FirstMissing(entries)
    requires path in LogoPaths(cfg.baseLogoDir, cfg.groupType, entries[k].0) && path in cfg.existingLogos
    ensures LogoCopy(path, LogoDir(entries[k].1, cfg)) in Partition(entries, cfg).logos
    decreases |entries|
  {
    var init := entries[..|entries| - 1];
    LastStep(entries, cfg);
    if k < |init| {
      assert init[k] == entries[k];
      PartitionLogoAt(init, cfg, k, path);
    }
  }

  /** Every existing logo of a pattern processed before the first missing
      count is copied into that pattern's image directory. */
  lemma PartitionLogosComplete(entries: seq<(string, CountedPattern)>, cfg: Config)
    ensures forall k, path ::
      (0 <= k < FirstMissing(entries) && path in LogoPaths(cfg.baseLogoDir, cfg.groupType, entries[k].0) &&
       path in cfg.existingLogos) ==>
      LogoCopy(path, LogoDir(entries[k].1, cfg)) in Partition(entries, cfg).logos
  {
    forall k, path | 0 <= k < FirstMissing(entries) && path in LogoPaths(cfg.baseLogoDir, cfg.groupType, entries[k].0) &&
                     path in cfg.existingLogos
      ensures LogoCopy(path, LogoDir(entries[k].1, cfg)) in Partition(entries, cfg).logos
    {
      PartitionLogoAt(entries, cfg, k, path);
    }
  }


  /** Raising the threshold moves patterns from valid to invalid, never back. */
  lemma PartitionMonotone(entries: seq<(string, CountedPattern)>, cfg: Config, t1: real, t2: real)
    requires DistinctNames(entries) && t1 <= t2
    ensures Partition(entries, cfg.(threshold := t2)).valid.Keys <= Partition(entries, cfg.(threshold := t1)).valid.Keys
    ensures Partition(entries, cfg.(threshold := t1)).invalid.Keys <= Partition(entries, cfg.(threshold := t2)).invalid.Keys
  {
    var c1, c2 := cfg.(threshold := t1), cfg.(threshold := t2);
    PartitionKeys(entries, c1);
    PartitionKeys(entries, c2);
    forall n | n in Partition(entries, c2).valid ensures n in Partition(entries, c1).valid {
      var k :| 0 <= k < |entries| && entries[k].0 == n;
      PartitionAt(entries, c1, k);
      PartitionAt(entries, c2, k);
    }
    forall n | n in Partition(entries, c1).invalid ensures n in Partition(entries, c2).invalid {
      var k :| 0 <= k < |entries| && entries[k].0 == n;
      PartitionAt(entries, c1, k);
      PartitionAt(entries, c2, k);
    }
  }

  /** Two patterns with 150 and 50 seqlets under the default threshold: the
      first is valid, the second invalid. */
  lemma ExampleDefaultThreshold(cfg: Config)
    requires cfg.threshold == DEFAULT_THRESHOLD
    ensures var s := Partition([("pattern_A", CountedPattern(Some(150))),
                                ("pattern_B", CountedPattern(Some(50)))], cfg);
      s.outcome == Completed &&
      "pattern_A" in s.valid && "pattern_A" !in s.invalid &&
      "pattern_B" in s.invalid && "pattern_B" !in s.valid
  {
    var es := [("pattern_A", CountedPattern(Some(150))), ("pattern_B", CountedPattern(Some(50)))];
    assert es[..1] == [es[0]] && es[..1][..0] == [];
  }
}
