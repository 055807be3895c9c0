# Motif filters of the chromatin-atlas pipeline, modelled in Dafny

This project models four scripts of the chromatin-atlas pipeline that decide
which discovered motif patterns are kept. It proves what those scripts
guarantee.

- **TN5 artifact filter** (`step6_3_3_filter_motifs_with_tn5_bias.py`).
  It decodes a pattern's one-hot seqlet to a nucleotide string. It slides the
  seqlet, ungapped, over each of the five TN5 adapter isoforms and scores the
  percentage of letters that agree at each offset. The first isoform whose
  best score reaches the threshold marks the pattern as a TN5 artifact (the
  invalid store); otherwise the pattern goes to the valid store.
  Modelled in `tn5_filter.dfy`.
- **Support-count filter** (`step6_3_1_remove_motifs_with_low_numseqs.py`).
  A pattern is valid when its `n_seqlets` count is at least the threshold.
  Each pattern is copied to the valid or the invalid store. Its forward and
  reverse logo images, when they exist, are copied to the matching image
  directory. Modelled in `support_filter.dfy`.
- **Q-value filter** (`step6_3_2_filter_motifs_by_qval.py`).
  A motif is valid when one of its three match q-values is strictly below the
  threshold. Stores and logos are handled as in the support-count filter.
  Modelled in `qval_filter.dfy`.
- **Peak-input builder** (`step4-1-input-for-peaks-by-blacklist.py`).
  It reads a CSV mapping from ENCODE experiment (ENCSR) ids to organisms.
  It then walks the peaks directory and writes one line
  `<peak file> <organism>` for every subdirectory of a mapped experiment that
  holds a `.bed.gz` file. Modelled in `peak_inputs.dfy`.

Two shared modules (`common.dfy`, `py_text.dfy`) model the Python features
the scripts rely on:
- the Python exceptions that are carried as values;
- `os.path.join` for POSIX paths;
- the "copy each existing logo" loop;
- `str.strip`, `str.split`, `str.replace` and `str.endswith`.

## How the model is built

- **Python exceptions.** An exception whose occurrence depends on the
  input becomes a `Result` value whose error is `ZeroDivisionError` (an
  empty seqlet), `IndexError` (a short mapping line) or `StopIteration` (an
  empty mapping file). Each `try`/`except` becomes a decision about which
  result survives. The other exceptions are modelled by their effect:
  - a missing HDF5 dataset (`KeyError`) is an `Option` that is `None`;
  - a missing count or q-value ends a run as
    `SupportFilter.Outcome.MissingCount` or `QvalFilter.Outcome.MissingQval`;
  - a missing group is `GroupNotFound`;
  - the `NameError` raised on every call of the TN5 logo copier is why only
    the first seqlet counts (`Tn5Filter.FirstSeqlet`).
- **HDF5 files.**
  - An input group is a sequence of `(name, pattern)` pairs, in iteration
    order, with distinct names.
  - A pattern records only the datasets the script reads. Each is an
    `Option`, so a missing dataset is `None`.
  - An output store is a map from pattern name to the pattern copied
    unchanged.
- **File system.**
  - The existing logo files are a set of paths.
  - A logo copy is a `LogoCopy(source, targetDir)` record appended to the
    run's log of copies.
  - The peaks directory is a tree of `Node`s in listing order.
  - The mapping file is its sequence of lines.
- **Loops.** Every loop of the source is a `method` with a `while` loop,
  except the TN5 seqlet loop, which never gets past its first pass (see
  "Left out"). Each method's `ensures` ties the result to a recursive
  specification function:
  - `Tn5Filter`: `Scan`, `ClassifyAgainst`, `Partition`;
  - `SupportFilter`, `QvalFilter`: `Partition`;
  - `PeakInputs`: `Collect`, `PeakLines`.

  The properties the scripts promise are proved about those functions as
  lemmas.
- **Scores.** The similarity is the exact rational
  `matches / len(seqlet) * 100`, written as a `real`.

Behaviour the code has that a reader might not expect, all modelled as
written:

- **TN5 filter: only the first seqlet counts.**
  - `copy_logo_images` logs `is_valid` at its first line, but `is_valid` is
    not defined in that function (`step6_3_3_filter_motifs_with_tn5_bias.py:89`).
    So every call raises `NameError` before any logo is copied.
  - The per-pattern `except Exception` (`:186`) catches it. So the seqlet
    loop never gets past its first seqlet, and the pattern is judged by that
    seqlet alone (`Tn5Filter.FirstSeqlet`).
  - The store copy at `:175`/`:178` has already happened by then. No TN5
    logo is ever copied.
- **TN5 filter: failures skip the pattern.** A seqlet that cannot be decoded
  becomes `""`. Aligning `""` divides by zero at the first isoform. The
  same per-pattern handler catches that, so the pattern lands in neither
  store. The error is surfaced per pattern by being skipped, not recorded.
  An empty seqlet array and a missing `seqlets/sequence` dataset also skip
  the pattern.
- **TN5 filter: a missing group.** It raises before the output stores are
  opened (`:150` comes before `:156`), so no store is written
  (`Tn5Run.GroupNotFound`).
- **Support and q-value filters: a missing value aborts the run.** A pattern
  without `n_seqlets`, or a motif without one of `qval0..2`, raises a
  `KeyError` that is caught only outside the loop. So the run stops there
  and keeps what was stored before. In the support filter, the group lookup
  (`step6_3_1_remove_motifs_with_low_numseqs.py:81`) happens after the
  stores are opened, so a missing group leaves two empty stores.
- **Support and q-value filters: thresholds.** Both comparisons are as the
  code writes them: `n >= threshold` (non-strict) and `q < threshold`
  (strict).
- **Peak-input builder.**
  - The output file is truncated before the mapping file is checked. So a
    missing mapping file, an empty one (`next` raises `StopIteration`) and
    a line with fewer than four fields (`IndexError`) all leave it empty.
  - Later lines win for repeated ids.
  - Each subdirectory contributes its first `.bed.gz` entry in listing
    order, whether that entry is a file or a directory.

## Model

| member | source | states |
|---|---|---|
| Common.PathJoinShape | step6_3_1_remove_motifs_with_low_numseqs.py:26-27 | `os.path.join(a, b)` ends with `b`. Unless `b` is absolute, what precedes `b` is `a` or `a + "/"`. |
| Common.CopiesInto | step6_3_1_remove_motifs_with_low_numseqs.py:36-42 | The copies made are existing paths among the logo paths, all into the target directory. Every existing logo path is copied. Missing ones are skipped. |
| Common.CopyExisting | step6_3_2_filter_motifs_by_qval.py:27-33 | The loop over the logo paths makes exactly the copies `CopiesInto` describes, in order. |
| PyText.StripSpec | step4-1-input-for-peaks-by-blacklist.py:36-37 | `strip` keeps a slice of the string with only stripped characters outside it, and that slice neither starts nor ends with one. |
| PyText.Split | step4-1-input-for-peaks-by-blacklist.py:36-37 | `split(sep)` gives at least one piece. No piece contains `sep`. Joining the pieces with `sep` gives back the string. |
| PyText.SplitJoin | step4-1-input-for-peaks-by-blacklist.py:36-37 | Splitting the join of one or more separator-free pieces (empty ones allowed) gives back exactly those pieces. |
| PyText.SplitPiece | step4-1-input-for-peaks-by-blacklist.py:37 | A string without the separator splits into itself alone. |
| PyText.ReplaceChar | step4-1-input-for-peaks-by-blacklist.py:38 | `replace(" ", "_")` keeps the length, changes exactly the spaces, and leaves no space behind. |
| Tn5Filter.IsoformLengths | step6_3_3_filter_motifs_with_tn5_bias.py:15-21 | The five isoforms have lengths 16, 23, 18, 21 and 21, so the longest is 23. |
| Tn5Filter.ArgMax | step6_3_3_filter_motifs_with_tn5_bias.py:81 | `np.argmax` of a row is an index holding the maximum, and is the first such index. |
| Tn5Filter.DecodeRows | step6_3_3_filter_motifs_with_tn5_bias.py:80-85 | Decoding succeeds iff every row is non-empty with its argmax below 4. It then gives one letter per row, the letter at that row's argmax. |
| Tn5Filter.DecodeSeqlet | step6_3_3_filter_motifs_with_tn5_bias.py:59-85 | A non-array gives "". An undecodable row gives "". Otherwise the result has one letter per row, the letter at that row's argmax. Every letter is in ACGT. |
| Tn5Filter.MatchesUpTo | step6_3_3_filter_motifs_with_tn5_bias.py:35 | The number of agreeing positions among the first k is at most k. |
| Tn5Filter.AllMatch | step6_3_3_filter_motifs_with_tn5_bias.py:35 | All of the first k positions agree iff the two prefixes of length k are equal. |
| Tn5Filter.CountMatches | step6_3_3_filter_motifs_with_tn5_bias.py:35 | The counting loop computes `sum(1 for a, b in zip(...) if a == b)`. |
| Tn5Filter.SimilarityRange | step6_3_3_filter_motifs_with_tn5_bias.py:34-35 | A similarity lies in [0, 100]. It is 100 iff the seqlet occurs verbatim at that offset. |
| Tn5Filter.ScanIsFirstMaximum | step6_3_3_filter_motifs_with_tn5_bias.py:28-39 | After the scan, the best score equals the similarity at the kept offset and is at least every similarity seen. Every earlier offset scores strictly less, so ties keep the lowest offset. |
| Tn5Filter.RunBlastWithShift | step6_3_3_filter_motifs_with_tn5_bias.py:23-44 | The sliding-window loop returns what `BlastWithShift` specifies: a longer seqlet gives `(False, 0, 0)`, an empty seqlet gives `ZeroDivisionError`, and otherwise the scan's verdict, score and offset. |
| Tn5Filter.BlastWithShiftIsFirstBest | step6_3_3_filter_motifs_with_tn5_bias.py:23-44 | The return value, stated outright: a longer seqlet gives `(False, 0, 0)`; an empty one raises. Otherwise the score is the maximum over all offsets and lies in [0, 100]. The offset is the first that reaches it. The verdict is `score >= threshold`. |
| Tn5Filter.BestIsFullIffVerbatim | step6_3_3_filter_motifs_with_tn5_bias.py:32-44 | The best score is 100 iff the seqlet occurs verbatim somewhere in the isoform. |
| Tn5Filter.ExampleExactAtOffsetZero | step6_3_3_filter_motifs_with_tn5_bias.py:16 | "GCAC" against isoform tn5_1 at threshold 100 gives `(True, 100, 0)`. |
| Tn5Filter.ExampleTieKeepsLowestOffset | step6_3_3_filter_motifs_with_tn5_bias.py:37-39 | "AC" in "ACAC" scores 100 at offsets 0 and 2. The strict `>` keeps offset 0. |
| Tn5Filter.RunBlastWithIsoforms | step6_3_3_filter_motifs_with_tn5_bias.py:46-56 | The loop returns `IsTn5Artifact`. It tries isoforms in list order. A true verdict comes from the last isoform tried, with no hit before it. A false verdict means all five were tried. |
| Tn5Filter.ClassifyIffSomeHit | step6_3_3_filter_motifs_with_tn5_bias.py:46-56 | For a non-empty seqlet, the panel search never raises. It says "artifact" iff some isoform is a hit. |
| Tn5Filter.EmptySeqletRaises | step6_3_3_filter_motifs_with_tn5_bias.py:32-35 | An empty seqlet raises `ZeroDivisionError` at the first isoform. |
| Tn5Filter.HitMonotone | step6_3_3_filter_motifs_with_tn5_bias.py:44 | A hit at a threshold is also a hit at every lower threshold. |
| Tn5Filter.ClassifyMonotone | step6_3_3_filter_motifs_with_tn5_bias.py:46-56 | Raising the threshold can turn an artifact verdict into a clean one, never the reverse. |
| Tn5Filter.LongSeqletNeverFlagged | step6_3_3_filter_motifs_with_tn5_bias.py:24-26 | A seqlet longer than 23 letters is never flagged. |
| Tn5Filter.VerbatimSeqletFlagged | step6_3_3_filter_motifs_with_tn5_bias.py:46-56 | A seqlet occurring verbatim in one isoform is flagged at every threshold up to 100. |
| Tn5Filter.RoutePattern | step6_3_3_filter_motifs_with_tn5_bias.py:161-187 | A pattern is skipped iff it has no first seqlet or that seqlet decodes to "". It is invalid iff `IsTn5Artifact` says `True`, and valid iff it says `False`. |
| Tn5Filter.FilterAndCopyPatterns | step6_3_3_filter_motifs_with_tn5_bias.py:148-187 | A missing group gives `GroupNotFound`. Otherwise the pattern loop produces exactly the stores `Partition` describes. |
| Tn5Filter.PartitionKeys | step6_3_3_filter_motifs_with_tn5_bias.py:159-179 | Only names of patterns in the group are keys of either store. |
| Tn5Filter.PartitionAt | step6_3_3_filter_motifs_with_tn5_bias.py:159-179 | Each pattern is in the valid store iff routed there, and in the invalid store iff routed there. It is stored unchanged under its own name. |
| Tn5Filter.PartitionMembership | step6_3_3_filter_motifs_with_tn5_bias.py:159-187 | The same for all patterns at once. The stores hold nothing else and share no key. |
| Tn5Filter.PartitionMonotone | step6_3_3_filter_motifs_with_tn5_bias.py:159-179 | A higher threshold gives a smaller-or-equal invalid key set and a larger-or-equal valid key set. |
| SupportFilter.CopyLogoImages | step6_3_1_remove_motifs_with_low_numseqs.py:11-42 | The existing logos among `<group>.<name>.cwm.fwd.png` and `.cwm.rev.png` under the base directory are copied to the valid image directory iff the pattern is valid. |
| SupportFilter.FilterAndCopyPatterns | step6_3_1_remove_motifs_with_low_numseqs.py:61-110 | A missing group gives empty stores, no copies and `GroupNotFound`. Otherwise the loop produces exactly the run `Partition` describes. |
| SupportFilter.AbortIsFinal | step6_3_1_remove_motifs_with_low_numseqs.py:84-108 | Once a missing count has aborted the loop, later patterns change nothing. |
| SupportFilter.FirstMissing | step6_3_1_remove_motifs_with_low_numseqs.py:87-88 | Gives the first pattern without a count: every pattern before it has one, and the pattern at it has none. |
| SupportFilter.PartitionOutcome | step6_3_1_remove_motifs_with_low_numseqs.py:84-108 | The loop completes iff no count is missing. Otherwise it stops with `MissingCount` naming the first pattern without one. |
| SupportFilter.PartitionKeys | step6_3_1_remove_motifs_with_low_numseqs.py:95-100 | Only names of patterns in the group are keys of either store. |
| SupportFilter.PartitionAt | step6_3_1_remove_motifs_with_low_numseqs.py:84-100 | A pattern is valid iff it comes before the first missing count and has `n_seqlets >= threshold`. It is invalid iff it comes before it and is below. It is stored unchanged. |
| SupportFilter.PartitionMembership | step6_3_1_remove_motifs_with_low_numseqs.py:84-108 | A pattern is in some store iff it comes before the first missing count. Among those, it is valid iff it passes. The stores hold nothing else and share no key. |
| SupportFilter.LastStep | step6_3_1_remove_motifs_with_low_numseqs.py:84-103 | Processing one more pattern keeps earlier copies in front. It adds that pattern's logo copies only when no count is missing up to and including it. |
| SupportFilter.PartitionLogosSound | step6_3_1_remove_motifs_with_low_numseqs.py:36-42 | Every copy made is an existing logo of a pattern processed before the first missing count, into that pattern's image directory. |
| SupportFilter.PartitionLogoAt | step6_3_1_remove_motifs_with_low_numseqs.py:102-103 | One existing logo of a processed pattern is copied into its pattern's image directory. |
| SupportFilter.PartitionLogosComplete | step6_3_1_remove_motifs_with_low_numseqs.py:102-103 | Every existing logo of every processed pattern is copied into its pattern's image directory. |
| SupportFilter.PartitionMonotone | step6_3_1_remove_motifs_with_low_numseqs.py:90 | Raising the threshold can only shrink the valid key set and grow the invalid one. |
| SupportFilter.ExampleDefaultThreshold | step6_3_1_remove_motifs_with_low_numseqs.py:44 | At the default threshold 100, a pattern with 150 seqlets is valid and one with 50 is invalid. |
| QvalFilter.Min3 | step6_3_2_filter_motifs_by_qval.py:65 | The minimum of three q-values is one of them and is at most each. |
| QvalFilter.PassesIffMinBelow | step6_3_2_filter_motifs_by_qval.py:65 | A motif passes iff its smallest q-value is strictly below the threshold. |
| QvalFilter.PassesMonotone | step6_3_2_filter_motifs_by_qval.py:65 | A motif that passes at a threshold passes at every higher one. |
| QvalFilter.CopyMotifImages | step6_3_2_filter_motifs_by_qval.py:11-33 | The existing logos among `<name>.cwm.fwd.png` and `.cwm.rev.png` are copied to the valid image directory iff the motif is valid. |
| QvalFilter.FilterAndCopyMotifs | step6_3_2_filter_motifs_by_qval.py:45-83 | The motif loop produces exactly the run `Partition` describes. |
| QvalFilter.AbortIsFinal | step6_3_2_filter_motifs_by_qval.py:58-76 | Once a missing q-value has aborted the loop, later motifs change nothing. |
| QvalFilter.FirstMissing | step6_3_2_filter_motifs_by_qval.py:60-62 | Gives the first motif lacking a q-value: every motif before it has all three, and the motif at it lacks one. |
| QvalFilter.PartitionOutcome | step6_3_2_filter_motifs_by_qval.py:58-83 | The loop completes iff no q-value is missing. Otherwise it stops with `MissingQval` naming the first such motif. |
| QvalFilter.PartitionKeys | step6_3_2_filter_motifs_by_qval.py:70-73 | Only names of entries of the file are keys of either store. |
| QvalFilter.PartitionAt | step6_3_2_filter_motifs_by_qval.py:58-73 | A motif is valid iff it comes before the first missing q-value and one q-value is below the threshold. It is invalid iff it comes before it and none is. It is stored unchanged. |
| QvalFilter.PartitionMembership | step6_3_2_filter_motifs_by_qval.py:58-83 | A motif is in some store iff it comes before the first missing q-value. Among those, it is valid iff it passes. The stores hold nothing else and share no key. |
| QvalFilter.LastStep | step6_3_2_filter_motifs_by_qval.py:58-76 | Processing one more motif keeps earlier copies in front. It adds that motif's logo copies only when no q-value is missing up to and including it. |
| QvalFilter.PartitionLogosSound | step6_3_2_filter_motifs_by_qval.py:27-33 | Every copy made is an existing logo of a motif processed before the first missing q-value, into that motif's image directory. |
| QvalFilter.PartitionLogoAt | step6_3_2_filter_motifs_by_qval.py:75-76 | One existing logo of a processed motif is copied into its motif's image directory. |
| QvalFilter.PartitionLogosComplete | step6_3_2_filter_motifs_by_qval.py:75-76 | Every existing logo of every processed motif is copied into its motif's image directory. |
| QvalFilter.PartitionMonotone | step6_3_2_filter_motifs_by_qval.py:65 | Raising the threshold can only grow the valid key set and shrink the invalid one. |
| QvalFilter.ExampleBoundary | step6_3_2_filter_motifs_by_qval.py:35 | At the default 0.0001, a smallest q-value equal to the threshold is invalid and 0.00009 is valid. |
| PeakInputs.JoinWithLast | step4-1-input-for-peaks-by-blacklist.py:37 | Joining at least two pieces puts the last piece after the final separator. |
| PeakInputs.LastComponentSpec | step4-1-input-for-peaks-by-blacklist.py:37 | `split('/')[-1]` holds no '/' and ends the string. When shorter than the string, it is preceded by a '/'. |
| PeakInputs.ParseLineSpec | step4-1-input-for-peaks-by-blacklist.py:36-38 | A line raises `IndexError` iff it has fewer than four fields. Otherwise the id is the part after the last '/' of the slash-stripped first field. The organism is the fourth field with spaces made underscores, so it holds no space. |
| PeakInputs.ParseAll | step4-1-input-for-peaks-by-blacklist.py:35-38 | One parse result per data line, in order. |
| PeakInputs.ReadOrganismMap | step4-1-input-for-peaks-by-blacklist.py:32-39 | The reading loop returns `ParseMapping`: `StopIteration` for an empty file, otherwise the header is skipped and the data lines are folded by `Collect`. |
| PeakInputs.CollectErrorIsFinal | step4-1-input-for-peaks-by-blacklist.py:35-39 | Once a line has raised, later lines are never read. |
| PeakInputs.CollectFailsIff | step4-1-input-for-peaks-by-blacklist.py:35-39 | Reading fails iff some line raised, and with the error of such a line. |
| PeakInputs.CollectLastWins | step4-1-input-for-peaks-by-blacklist.py:39 | Every id read is a key. An id maps to the organism of the last line carrying it. Every key-value pair comes from some line. |
| PeakInputs.HeaderIgnored | step4-1-input-for-peaks-by-blacklist.py:34 | The first line is skipped whatever it holds. |
| PeakInputs.MappingFailsIffShortLine | step4-1-input-for-peaks-by-blacklist.py:33-39 | Reading the file fails iff it is empty (`StopIteration`) or some data line has fewer than four fields (`IndexError`). |
| PeakInputs.MappingIdsAndOrganisms | step4-1-input-for-peaks-by-blacklist.py:37-39 | No id in the map holds a '/'. No organism holds a space. |
| PeakInputs.PeakFilesSpec | step4-1-input-for-peaks-by-blacklist.py:63 | Every selected name is a `.bed.gz` name of the listing, and every `.bed.gz` name of the listing is selected. None is selected iff the listing has none. The first selected is the first such name in listing order. |
| PeakInputs.PeakFilesLength | step4-1-input-for-peaks-by-blacklist.py:63 | One name is selected per `.bed.gz` entry of the listing. |
| PeakInputs.PeakFileAt | step4-1-input-for-peaks-by-blacklist.py:63 | The `.bed.gz` entry at position `i` of the listing is selected at the position fixed by the number of `.bed.gz` entries from `i` on. |
| PeakInputs.PeakFilesOrder | step4-1-input-for-peaks-by-blacklist.py:63 | The selection is the listing's `.bed.gz` names in listing order: one per entry, each at its place. |
| PeakInputs.SubdirLineSpec | step4-1-input-for-peaks-by-blacklist.py:58-69 | A subdirectory yields a line iff it is a directory with a `.bed.gz` entry. The line is `<first .bed.gz path> <organism>\n`. |
| PeakInputs.DirLines | step4-1-input-for-peaks-by-blacklist.py:58-72 | An experiment directory yields at most one line per subdirectory. |
| PeakInputs.DirLinesChar | step4-1-input-for-peaks-by-blacklist.py:58-72 | A line is written for an experiment iff one of its subdirectories yields it. |
| PeakInputs.EmitPeakLines | step4-1-input-for-peaks-by-blacklist.py:47-74 | The nested directory walk writes exactly the lines `PeakLines` describes, in order. |
| PeakInputs.PeakLinesChar | step4-1-input-for-peaks-by-blacklist.py:47-74 | A line is written iff some subdirectory of a mapped experiment directory yields it, with that experiment's organism. |
| PeakInputs.RunScript | step4-1-input-for-peaks-by-blacklist.py:22-76 | A missing mapping file gives an empty output and exit 1. A mapping error gives an empty output and that exception. Otherwise the output is the written lines, concatenated. |

## Left out

- HDF5 and file-system I/O. Opening, creating and closing files is not modelled, nor `makedirs` or the actual copying. A run returns its stores and its list of copies instead.
- Logging and `print` output. What they write is not modelled. The one logging call that changes control flow is the `logging.debug` at step6_3_3_filter_motifs_with_tn5_bias.py:89: evaluating its message raises `NameError`. Its effect is modelled, as the first-seqlet rule.
- Floating point. NumPy scores, counts and q-values are exact reals and integers, so NaN comparisons and rounding in `matches / len * 100` are not modelled.
- Environment variables and fixed paths. `BASE_PATH`, `INPUT_FILE` and `OUTPUT_FILE`, and the filters' input-file, output-directory and base-logo-directory parameters, are passed in as values. A missing `GROUP_SCRATCH` or `USER` variable, and a missing peaks directory, are not modelled.
- TN5 `copy_logo_images`. Every call raises `NameError` at step6_3_3_filter_motifs_with_tn5_bias.py:89, before any of lines 91-134 run. So the glob, the collision check (`FileExistsError`) and the copy never happen. The model records this by judging only the first seqlet and copying no TN5 logo.
- Later passes of the TN5 seqlet loop (step6_3_3_filter_motifs_with_tn5_bias.py:166). The `NameError` above always ends the loop during its first pass, so they never run.
- Output store file names. The `.h5` names are computed from the group type but decide nothing. The image directory names are modelled (`Config.ValidImageDir`, `Config.InvalidImageDir`).
- File existence is a fixed set, which is an assumption. Copying a logo is taken not to change which logo paths exist. The code does not guarantee this. If the base logo directory were one of the image directories, `shutil.copy` would raise `SameFileError`. The outer `except Exception` (step6_3_1_remove_motifs_with_low_numseqs.py:109, step6_3_2_filter_motifs_by_qval.py:82) would then end the loop, while the model goes on. Copy failures of any kind are not modelled.
- Directory listings. `os.listdir` order is taken as given, in the order of the `Node` sequences.
- Non-2-D one-hot data. A seqlet array whose elements are not 2-D arrays, or rows of other types, is not modelled; `OneHot.NotAnArray` stands for any non-array argument.
- A mapping file that exists but cannot be read, and non-UTF-8 input, are not modelled.
