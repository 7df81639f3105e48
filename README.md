# sgRNAble guide-site discovery, modelled in Dafny

sgRNAble lists the candidate CRISPR guide-RNA sites of target genes and hands them to an
off-target scoring model. This project models the part of `Optimal_Guide.py` that finds
those sites, and proves what it promises.

- **PAM scanning** (`PAM_Finder`). `PamScanner.PamFinder` is the source's `while` loop.
  The search origin `position` jumps one past each PAM found by `str.find`, so overlapping
  PAMs are all seen. The PAM at index `j` gives the candidate start `j - guide_length`. The
  candidate is kept when it is positive and its window `s[c : c + guide_length]` contains
  none of the `--cut` literals. The method is proved equal to the specification function
  `GuideSites`. The lemmas about `GuideSites` state each promise:
  - every start is positive, and the PAM lies right after the guide, inside the strand;
  - every eligible PAM is reported, overlapping ones included;
  - the list is strictly increasing;
  - no PAM gives an empty list, and no cut list discards nothing.
- **Python primitives** (module `Strings`). These are `str.find`, the substring test `in`,
  and slicing with negative-index wrap-around and clamping. The scan is therefore defined for
  every `int` guide length, negative ones included.
- **Reverse strand** (module `Strand`). This is the reverse complement with Biopython's DNA
  table, IUPAC ambiguity codes included. Lemmas show it is an involution, that it keeps the
  A/C/G/T alphabet, and how a stretch of the reverse strand maps back onto the forward strand.
- **Guide catalog** (module `GuideCatalog`). The aim `--aim` becomes the datatype `Aim`:
  `Discovery`, `Interference`, `Screening`, `Activation(cutoff)` and `BindingStrength` (the
  `g` aim). `BuildCatalog` returns the empty `guide_list` for the `g` aim and otherwise calls
  `FillEntries`, the per-gene loop that fills it. `guide_list` is a map from gene name to `GuidePair(forward, reverse)`. Reverse hits are remapped with `len - x`.
  Lemmas give the meaning of each aim:
  - discovery gives exactly the hits of both strands;
  - activation keeps exactly the offsets below the cutoff, in order;
  - interference and screening give reverse offsets only;
  - the binding-strength aim builds no entry;
  - for a non-negative guide length (the only kind that reaches the scan, the default 20),
    every stored offset is an in-bounds coordinate of its gene; a negative length can store
    an offset past the end of the gene, as the source would.
- **Worked cases** (module `WorkedCases`). These are concrete scans, proved index by index or
  by skipping whole stretches without a PAM (`SkipNoHits`): a start of 0 is dropped; a flanked PAM is kept; an excluded window is dropped;
  overlapping PAMs are both kept; the default PAM and guide length find a 20-nucleotide guide;
  and a reverse-strand hit is remapped.

Two facts about the code are worth stating. First, the window `s[4:8]` of `TTTTAAAAGGCCCC` is
`AAAA`, so the excluded literal `AAAA` drops the candidate at 4
(`WorkedCases.ExcludedWindowDropped`). Second, every kept candidate satisfies
`offset + guide_length + len(pam) <= len(S)`, although no line tests it: `find` only reports
PAMs that fit in the strand (`PamScanner.GuideSiteSound`). Two source defects are modelled as
repaired; see "Left out".

## Model

| member | source | states |
|---|---|---|
| `Strings.Find` | Optimal_Guide.py:42 | `t.find(p)` is the lowest index where `p` occurs, or -1 exactly when `p` occurs nowhere in `t` |
| `Strings.OccursInSuffix` | Optimal_Guide.py:42-44 | an occurrence at `k` in `s[position:]` is the occurrence at `position + k` in `s`, which gives the absolute PAM index `Position + i` |
| `Strings.Slice` | Optimal_Guide.py:45 | a Python slice with in-range bounds is the Dafny subsequence; crossed bounds give the empty string |
| `Strings.Contains` | Optimal_Guide.py:45 | `p in w` holds exactly when `p` occurs somewhere in `w` |
| `Strings.AnyContained` | Optimal_Guide.py:45 | `any(...)` over the cut list holds exactly when some cut literal is a substring of the window |
| `Strand.ReverseComplement` | Optimal_Guide.py:94 | `Seq.reverse_complement` keeps the length, and complementing the result read backwards gives the forward strand; its further properties are `ReverseComplementInvolutive`, `ReverseComplementIsDna` and `ReverseComplementSlice` |
| `Strand.ComplementInvolutive` | Optimal_Guide.py:94 | complementing a base twice gives it back |
| `Strand.ReverseComplementInvolutive` | Optimal_Guide.py:94 | the reverse complement of the reverse complement is the original sequence |
| `Strand.ReverseComplementIsDna` | Optimal_Guide.py:94 | the reverse complement of an A/C/G/T sequence is an A/C/G/T sequence |
| `Strand.ReverseComplementSlice` | Optimal_Guide.py:94-96 | the stretch `[a, b)` of the reverse strand is the reverse complement of the stretch `[len - b, len - a)` of the forward strand |
| `PamScanner.CutList` | Optimal_Guide.py:34-35 | an unset `--cut` becomes the empty list and a given list is used as is; `NoCutsNothingDiscarded` states what the empty list means for the scan |
| `PamScanner.PamFinder` | Optimal_Guide.py:28-54 | the loop returns exactly `GuideSites(s, pam, guide_length, cut or [])`; it terminates because `len - Position` decreases |
| `PamScanner.NoPamAhead` | Optimal_Guide.py:41-47 | when `find` returns -1 from `Position`, every candidate has already been collected |
| `PamScanner.NextPam` | Optimal_Guide.py:41-52 | the next PAM lies inside the strand, and passing it appends its start exactly when that start is positive and its window is clean |
| `PamScanner.SkipNoHits` | Optimal_Guide.py:41-52 | indices skipped by the jump to the next PAM contribute no candidate |
| `PamScanner.GuideSitesExact` | Optimal_Guide.py:41-52 | `x` is reported if and only if a PAM occurs at `x + guide_length < len`, `x > 0`, and the window at `x` holds no cut literal |
| `PamScanner.GuideSitesIncreasing` | Optimal_Guide.py:41-52 | the reported starts are strictly increasing: discovery order, no duplicates |
| `PamScanner.GuideSiteSound` | Optimal_Guide.py:42-50 | every reported start is positive, its PAM sits at `o + guide_length` and ends inside the strand, and (for `guide_length >= 0`) its window `s[o .. o + L]` lies inside the strand and contains no cut literal |
| `PamScanner.GuideSiteComplete` | Optimal_Guide.py:41-52 | every PAM whose start is positive and whose window is clean is reported, overlapping PAMs included |
| `PamScanner.NoPamNoSites` | Optimal_Guide.py:41-47 | a strand without the PAM yields the empty list |
| `PamScanner.NoCutsNothingDiscarded` | Optimal_Guide.py:33-50 | with `--cut` unset, exactly the PAMs with a positive start are reported |
| `PamScanner.CutsOnlyRemove` | Optimal_Guide.py:45-50 | cut literals only remove candidates, never add one |
| `WorkedCases.StartAtZeroDropped` | Optimal_Guide.py:44-50 | `AAAAGGCCCC`, `GG`, length 4: the start 0 is dropped silently, result `[]` |
| `WorkedCases.FlankedPamKept` | Optimal_Guide.py:41-52 | `TTTTAAAAGGCCCC`, `GG`, length 4: result `[4]` |
| `WorkedCases.ExcludedWindowDropped` | Optimal_Guide.py:45-50 | the same strand with the cut literal `AAAA`: window `AAAA` is excluded, result `[]` |
| `WorkedCases.OverlappingPamsBothKept` | Optimal_Guide.py:41-52 | `AAAAAGGG`: the overlapping PAMs at 5 and 6 give `[1, 2]` |
| `WorkedCases.DefaultsFlankedPamKept` | Optimal_Guide.py:41-52 | with the default PAM `GG` and the default guide length 20, `T` followed by twenty `A`s and `GG` gives `[1]` |
| `WorkedCases.ReverseStrandRemapped` | Optimal_Guide.py:88-97 | discovery on `CCTTTTTTTT` stores `[[], [6]]`: the reverse-strand start 4 remapped as `10 - 4` |
| `GuideCatalog.BelowCutoff` | Optimal_Guide.py:121 | the activation filter keeps exactly the offsets below the cutoff and never lengthens the list |
| `GuideCatalog.BelowCutoffKeepsAll` | Optimal_Guide.py:127 | a list already below the cutoff passes the filter unchanged |
| `GuideCatalog.BelowCutoffIncreasing` | Optimal_Guide.py:121 | the filter keeps an increasing list increasing |
| `GuideCatalog.BelowCutoffDecreasing` | Optimal_Guide.py:127 | the filter keeps a decreasing list decreasing |
| `GuideCatalog.Remap` | Optimal_Guide.py:96 | `[len - x for x in Locations]` keeps the length, and each remapped offset and its raw offset sum to `len`; `RemapInvolutive` and `RemapMembership` state the round trip and membership (the same remap is at lines 103, 112 and 126) |
| `GuideCatalog.RemapInvolutive` | Optimal_Guide.py:96 | remapping by `len - x` twice gives the original offsets |
| `GuideCatalog.RemapMembership` | Optimal_Guide.py:96 | `y` is a remapped offset exactly when `len - y` is a raw reverse-strand offset |
| `GuideCatalog.ReverseSitesExact` | Optimal_Guide.py:94-96 | `y` is a reverse offset if and only if the reverse-strand scan keeps the PAM at `len - y + guide_length` |
| `GuideCatalog.ReverseSitesBounds` | Optimal_Guide.py:94-96 | each remapped offset lies in `[guide_length + len(pam), len - 1]` (so never `len`), and the list is strictly decreasing |
| `GuideCatalog.ReverseSiteOnForwardStrand` | Optimal_Guide.py:94-96 | for a reverse offset `y`, the forward strand holds the reverse complement of the PAM at `[y - L - len(pam), y - L)` and the guide, free of cut literals, at `[y - L, y)` |
| `GuideCatalog.GuidesForGene` | Optimal_Guide.py:88-128 | the per-gene body of each aim computes exactly the entry `Select` prescribes |
| `GuideCatalog.BuildCatalog` | Optimal_Guide.py:85-128 | `guide_list` gets one entry per gene, the one its aim prescribes; the binding-strength aim leaves it empty |
| `GuideCatalog.FillEntries` | Optimal_Guide.py:88-128 | the `for gene in Target_Dict` loop of every aim other than `g` gives each gene exactly one entry, the one `Select` prescribes for its aim |
| `GuideCatalog.DiscoveryLists` | Optimal_Guide.py:88-97 | discovery stores exactly the forward hits in increasing order and exactly the remapped reverse hits in decreasing order |
| `GuideCatalog.ActivationBelowCutoff` | Optimal_Guide.py:116-128 | activation keeps exactly the discovery offsets below the cutoff on each strand, in discovery order |
| `GuideCatalog.ReverseOnlyAims` | Optimal_Guide.py:98-113 | interference and screening store an empty forward list and discovery's reverse list |
| `GuideCatalog.CatalogInBounds` | Optimal_Guide.py:85-128 | for `guide_length >= 0` every stored offset is a coordinate of its gene: forward starts in `[1, len)`, reverse offsets in `[0, len)` |

## Left out

- `Get_Sequence` (Optimal_Guide.py:12-25) is not modelled. It is file parsing and genome concatenation through Biopython. The targets arrive as a `map` from gene name to upper-case sequence.
- Writing the reference genome record (Optimal_Guide.py:81-82) is not modelled. It is file output.
- Argument parsing and the entry point (Optimal_Guide.py:59-77, 145-146) are not modelled. `--guide_length` has no `type=int`, so only the default 20 reaches the scan as an `int`. A value given with `-l` arrives as a `str`, and `Position + i - guide_RNA_length` (Optimal_Guide.py:44) then raises `TypeError`. The model takes the guide length as an `int` parameter and does not model that error.
- Parsing the activation aim (`int(args.aim[:-1])`, Optimal_Guide.py:121) is not modelled. The cutoff is given as an `int`, and the `ValueError` of a non-numeric aim is outside the model.
- The scoring model (`clCas9Calculator`, `sgRNA`, `.run()`, Optimal_Guide.py:131-143) and the wall-clock timing and printing are left out. That code is not part of this model.
- Gene order is not modelled. The catalog is a `map`, so the order in which the dict is iterated is not represented; no entry depends on it.
- `Strand.ReverseComplement` uses the DNA table only. Biopython picks its RNA table for a sequence holding `U` and no `T`, and rejects mixed RNA/DNA. Lower-case letters never reach it, because the sequences are upper-cased at Optimal_Guide.py:18.
- `PamScanner.PamFinder` follows the evident intent of line 45, which tests `cutsite` while iterating `cut_site`. As written, a non-empty cut list raises `NameError` on the first round, unless the star import of `Cas9_Calculator` (Optimal_Guide.py:7) brings in a global `cutsite`; that module is not part of this model. The model tests every cut literal against the window.
- `PamScanner.PamFinder` computes `discard` after the `i < 0` check, not before it (Optimal_Guide.py:45-46). The value is unused when the loop breaks, so the results are the same.
- `GuideCatalog.Select` repairs lines 104 and 113. For interference and screening, the source appends to `guide_list[gene]` without creating it, which raises `KeyError`. Adding `guide_list[gene] = []` as lines 90 and 119 do would store the one-slot entry `[NegLocations]`. The model instead stores an empty forward list and the remapped reverse list, so that every entry keeps the `[forward, reverse]` layout of the other aims.
