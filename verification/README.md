# Assurance tooling and flash layout: a verified model

The repository decides by program which Rust files can reach a shipped image,
which changes an image can feel, which crates may depend on which, how two gates
share one generated page, and where the credential store sits on a flash chip and
how much of it the wiper erases. This project models those programs and proves
what they are trusted for.

- **What can ship** (`scripts/assurance_gate.py`): the comma cutter, the
  three-valued `cfg` evaluator on text, the `cfg_attr` desugaring, the
  comment/literal blanker, the stack-based module scanner, the feature fixed point
  and the exclusion fixed point, composed into one soundness theorem over what the
  kept declarations compile under every admissible build. Files: SplitTop, Cfg, CfgLaws,
  CfgExact, CfgQuotes, Attributes, AttributeLaws, Blank, Lexing, Relex, Brackets, Scan,
  Items, ScanLaws, Features, Exclusion, ExclusionLaws, Shipping, Resolution, Trees,
  Production, Unlisted.
- **What an image can feel** (`scripts/bcd_gate.py`): the worklist over
  (file, gated) and the set algebra across two revisions. Files: Gated, GatedWalk.
- **Layering and packing** (`scripts/crate_graph.py`): tiers, the firm closure and
  the greedy line breaker. Files: Layers, Wrap.
- **Text transformers**: two TLA+ comment strippers (Strippers, StripModules), the
  marker splice used by two gates on one page (Markers, Splice, SpliceTwo), and the
  correction chain of `scripts/bundle_gate.py` (Corrections).
- **Flash layout** (`firmware/build.rs`, `rsk-wipe/build.rs`): the size parser, the
  bounded layout arithmetic and the two board-file readers. Files: Sizes, Flash,
  Boards, BoardLaws, BoardLines, WipeLaws.

Loops, worklists and in-place writes of the original are methods with invariants,
each proved against a specification function or a predicate; what is promised of
that specification is proved in the `*Laws` modules beside it. What both sides of such
a proof share (the lexer, the path and enablement spellings, file resolution, board
lines, sizes) is pinned by laws that do without it: Lexing, Resolution, Trees,
BoardLines, and the lemmas named `...Is`, `...Exactly` and `...Means`.

Where the code does not do what is expected of it, the code is kept, a concrete
input is given, and the exact condition is proved:

- One withheld declaration drops a file even when another live declaration
  compiles it, although the docstring of `cfg_excluded` says one live declarer
  keeps it: `Production.LiveDeclarerIsIgnored`. A file with a live declarer is kept
  exactly when it is not in the base, which is fixed before any closure:
  `Shipping.LiveDeclarerKeepsExactly`. For soundness the condition a gate author can
  evaluate is `Shipping.NoWayIn`; the exact one for a given build is
  `Shipping.NoEntry`.
- A file outside the listing can name an excluded one by `#[path]`, and the gate does
  not read it: `Unlisted.UnreadDeclarerIsMissed`. Both conditions above cover such
  files.
- A gate that names one atom twice, one `target_os` twice, or `false`, can be
  unsatisfiable and still be kept: `CfgExact.RepeatedAtomIsKept`,
  `CfgExact.TwoValuesAreKept`, `CfgExact.FixedNamesAreFree`.
  Where the atoms can be chosen independently the verdict is exact, for any family of
  builds: `CfgExact.ExactWhereIndependent`. For builds that set `true` and not `false`, give
  the set-once keys one value and keep `unix` and `windows` in step with
  `target_family`, independence is that the gate names neither `true` nor `false` and
  no two of its atoms are tied: `CfgExact.VerdictIsExact`. Enablement
  between features and the tables of existing targets are not imposed on builds; a
  family that imposes them is covered where it leaves the gate's atoms independent.
- A comma inside a quoted operand is cut: `CfgQuotes.QuotedCommaIsMisread`, and the
  exact family that stays free: `CfgQuotes.QuotedValueIsFreeExactly`. Without
  parentheses in the value, that is the values of which no piece after the first
  comma reads `test` or `kani`: `CfgQuotes.PlainValueFitsExactly`. Parentheses that do
  not nest are misread as well: `CfgQuotes.UnbalancedValueIsMisread`.
- A space in front of its parenthesis hides a `cfg` or `cfg_attr` from the gate, which
  then keeps a file no image compiles: `AttributeLaws.HiddenGateIsMissed`. The built
  expression means exactly what the attributes without such a gap mean:
  `AttributeLaws.StackedAttributesMean`.
- A plainly live `mod` line in a file reached both with and without a gate is
  excused: `GatedWalk.SharedDeclarationIsExcused`, and when exactly:
  `GatedWalk.LiveCountsAsGatedWhen`.
- The find-based stripper cannot count past one: `StripModules.NestedCommentDiffers`.
  The two strippers agree on every prefix of a module exactly when no comment is
  opened inside an open one: `StripModules.AgreeExactlyWithoutNesting`.
- A splice whose block repeats a marker leaves a page `check_readme` rejects:
  `Splice.RepeatedMarkerIsNotClean`, and exactly then: `Splice.CleanAfterSplice`.
- `kvmain_len + KVCNT_LEN` wraps in a build script compiled without overflow
  checks: `Flash.WrappedSumIsAccepted`, `Flash.AcceptedTilesExactly`.
- A repeated `size_mb`, or a comment after a section header, can leave the whole
  store above the erased range: `WipeLaws.RepeatedKeyLeavesTheStore`,
  `WipeLaws.CommentedHeaderLeavesTheStore`. On every file both scripts accept, the
  erase covers the store exactly when the first size the wiper sees is at least the
  last one the firmware sees, or its 4 MB default: `WipeLaws.EraseCoversExactly`.

The meaning of `cfg`, `cfg_attr` and `path` follows The Rust Reference, sections
"Conditional compilation" and "Modules".

## Model

| member | source | states |
|---|---|---|
| SplitTop.Split | scripts/assurance_gate.py:299-310 | the loop over `depth` and `start` computes the top-level comma cut `SplitFrom` |
| SplitTop.SplitLosesNothing | scripts/assurance_gate.py:299-310 | joining the parts with commas gives back any text, balanced or not |
| SplitTop.SplitInvertsJoin | scripts/assurance_gate.py:299-310 | cutting a comma-join of balanced parts gives back exactly those parts |
| SplitTop.SplitOfJoin | scripts/assurance_gate.py:299-310 | cutting a comma-join of balanced texts gives what each text is cut into, in order |
| CfgLaws.ReadsEverySpelling | scripts/assurance_gate.py:282-333 | on every legal spelling (any padding, optional trailing comma, gap before the parenthesis, quoted values with commas and parentheses) the text evaluator answers what Kleene evaluation of the syntax tree answers |
| CfgLaws.OperandIsHeard | scripts/assurance_gate.py:313-333 | however the cutter takes one operand apart, its pieces carry one verdict |
| CfgLaws.DefiniteIsRight | scripts/assurance_gate.py:282-333 | False means no admissible build satisfies the predicate, True means every one does |
| CfgLaws.FalseIsNeverBuilt | scripts/assurance_gate.py:313-333 | a text the evaluator answers False for is satisfied by no admissible build |
| CfgLaws.BareNames | scripts/assurance_gate.py:282-297 | of all bare names `test` and `kani`, and no other, are answered False |
| CfgLaws.MoreFeaturesSayLess | scripts/assurance_gate.py:293-333 | on any text at all, enlarging the shippable set only moves the verdict towards free |
| CfgExact.ExactWhereIndependent | scripts/assurance_gate.py:313-333 | on recognised spellings that name no atom twice, and for any family of admissible builds that chooses the atoms independently, False and True hold if and only if the predicate fails, or holds, in every build of the family |
| CfgExact.VerdictIsExact | scripts/assurance_gate.py:313-333 | the same for all coherent admissible builds, on gates that name neither `true` nor `false`, no set-once key twice and no target family both ways |
| CfgExact.SteerWithin | scripts/assurance_gate.py:313-333 | for each truth value the verdict leaves open, every family that chooses the atoms independently, the coherent builds among them, holds a build that gives the predicate that value |
| CfgExact.RepeatedAtomIsKept | scripts/assurance_gate.py:313-333 | `all(x, not(x))` holds in no build and the evaluator answers free |
| CfgExact.TwoValuesAreKept | scripts/assurance_gate.py:313-333 | `all(target_os = "none", target_os = "linux")` holds in no coherent build and the evaluator answers free |
| CfgExact.FixedNamesAreFree | scripts/assurance_gate.py:282-297 | `false` holds in no coherent build and `true` in every one, and the evaluator answers free to both |
| CfgQuotes.QuotedCommaIsMisread | scripts/assurance_gate.py:299-333 | a quoted value with commas is cut into operands and withholds a gate an admissible build satisfies |
| CfgQuotes.QuotedValueIsFreeExactly | scripts/assurance_gate.py:299-333 | a cut value with balanced parentheses is left free by both `all` and `any` if and only if no fragment of it is answered definitely |
| CfgQuotes.PlainValueFitsExactly | scripts/assurance_gate.py:299-333 | a quoted value without parentheses is fit to be an operand if and only if no piece after its first comma reads `test` or `kani` |
| CfgQuotes.LastIsUnread | scripts/assurance_gate.py:313-333 | whatever stands between the operator's parenthesis and the last character, and whatever that character is, the answer combines the answers to its top-level parts |
| Cfg.FeatureIsReadExactly | scripts/assurance_gate.py:282-297 | an atom names a feature if and only if it is `feature`, `=` and a quoted name with any blanks around the sign |
| CfgQuotes.UnbalancedValueIsMisread | scripts/assurance_gate.py:299-333 | under any key but `feature`, a value with parentheses the wrong way round withholds a gate an admissible build satisfies |
| AttributeLaws.ReadsEveryAttribute | scripts/assurance_gate.py:409-423 | on every `cfg`, nested `cfg_attr` or other attribute, commas in quoted text and gaps before parentheses included, the text desugaring prints the tree desugaring, and its output is legal again |
| AttributeLaws.GapHides | scripts/assurance_gate.py:409-423 | a `cfg` or `cfg_attr` with a gap before its parenthesis is read as no cfg at all |
| AttributeLaws.DesugarMeans | scripts/assurance_gate.py:409-423 | a build satisfies the desugared expressions if and only if it satisfies every cfg the attribute activates without a gap; so whenever it satisfies all of them, and only then if there is no gap |
| AttributeLaws.StackedAttributesMean | scripts/assurance_gate.py:341-346 | the one expression built for a stack of attributes holds in every build that keeps the item and, if no attribute has a gap, in no other; with gaps, exactly where the visible cfgs hold |
| AttributeLaws.HiddenGateIsMissed | scripts/assurance_gate.py:409-423 | `#[cfg (test)]` yields no expression, though no admissible build keeps the item |
| AttributeLaws.WithheldIsNotKept | scripts/assurance_gate.py:341-346 | a stack whose expression is answered False is kept by no admissible build |
| Blank.Blanked | scripts/assurance_gate.py:349-406 | both outputs character by character on any text; lengths and newlines kept, every character original or a space, the two copies differ only inside literals |
| Lexing.EveryPieceIsSeen | scripts/assurance_gate.py:349-406 | for every text put together from code, line and nested block comments, escaped and raw strings with any number of hashes, character literals and lifetimes, the last piece perhaps unterminated, every offset is classified by the piece it lies in |
| Blank.Paint | scripts/assurance_gate.py:371-373 | a span is overwritten with spaces in place, newlines and all other offsets untouched |
| Relex.RelexFrom | scripts/assurance_gate.py:349-406 | re-reading comment-free text classifies every offset as before with comments become code |
| Relex.BlankingTwiceChangesNothing | scripts/assurance_gate.py:349-406 | blanking the `plain` output again gives the same two outputs, on every text |
| Brackets.AttrEnd | scripts/assurance_gate.py:528-536 | the depth loop stops where the brackets of the blanked copy balance, or at the end |
| Brackets.AttrEndMatches | scripts/assurance_gate.py:528-536 | that is the matching bracket of the text's own code, exactly when there is one: brackets in comments and literals count for nothing |
| Brackets.AttributeIsRead | scripts/assurance_gate.py:523-536 | of an attribute that closes, the end found on one copy and the body read from the other are what stands between its brackets, comments blanked and literals whole |
| Scan.ScanFile | scripts/assurance_gate.py:431-520 | the scan loop yields the run of the step function on any token stream, keeps block depths strictly increasing and at most `depth`, and terminates |
| Scan.Advance | scripts/assurance_gate.py:465-520 | one iteration moves the position strictly forward, keeps the stack invariant and leaves the outcome of the rest unchanged |
| Scan.ScanStep | scripts/assurance_gate.py:465-520 | one iteration pops, grows or writes the stack as the step function does and keeps the depths increasing |
| Scan.Pop | scripts/assurance_gate.py:473-477 | popping removes exactly the blocks deeper than the new depth |
| Scan.PathIsReadExactly | scripts/assurance_gate.py:249-249 | a `path` operand is read if and only if the attribute is `path = "operand"` with any blanks and line breaks around the equals sign |
| Scan.ReadRun | scripts/assurance_gate.py:486-493 | a run of outer attributes is read to its end with all cfgs and the last path |
| ScanLaws.ScanIsTheWalk | scripts/assurance_gate.py:431-520 | on every well-nested file, one record per `mod NAME;` with the cfgs and directories of its enclosing inline modules outermost first, then its own; the file gets only its depth-zero inner attributes |
| ScanLaws.WalkAll | scripts/assurance_gate.py:431-520 | in any open context and before any further tokens, scanning a list of items only appends the records of the recursive walk |
| Features.ShippableFeatures | scripts/assurance_gate.py:556-596 | the loop terminates in a pair (crates, features) that is closed under the dependency, request and enablement rules, and least among all such pairs |
| Features.ClosedMeans | scripts/assurance_gate.py:566-596 | what closed means on the manifests themselves: firmware's own features, non-dev dependencies, requested features, and what enabled keys enable |
| Features.WordIs | scripts/assurance_gate.py:592-592 | `x`, `dep:x`, `crate/x` and `crate?/x` all name the feature `x` |
| Features.EnableCrate | scripts/assurance_gate.py:587-595 | one pass over a manifest adds only what its enabled keys force, and adds nothing only when the keys are closed |
| Features.FollowPass | scripts/assurance_gate.py:580-586 | one pass over the dependencies stays below every closed pair, and changes nothing only when the crates are closed |
| Exclusion.CfgExcluded | scripts/assurance_gate.py:635-726 | the result is the least closed superset of the base; no result exactly when some gate raises |
| Exclusion.OwnPass | scripts/assurance_gate.py:683-692 | the files that shut themselves and the directories they shut |
| Exclusion.ChildHomeIs | scripts/assurance_gate.py:336-338 | children live beside `lib.rs`, `main.rs` and `mod.rs`, and in the directory named after any other file |
| Exclusion.DeclPass | scripts/assurance_gate.py:693-704 | the withheld targets, their child homes and the whole table of declarers |
| Exclusion.UnderPass | scripts/assurance_gate.py:705-714 | exactly the sources under a shut directory are added |
| Exclusion.UnderIs | scripts/assurance_gate.py:705-714 | under a shut directory means that directory and something more |
| Exclusion.Close | scripts/assurance_gate.py:715-726 | the in-place closure loop terminates in the least superset of the base closed under "all declarers excluded" |
| Exclusion.ProductionRust | scripts/assurance_gate.py:805-808 | the listed sources outside the least closed exclusion, each as often and in the order listed; no answer exactly when some gate raises |
| Exclusion.OutsidePicks | scripts/assurance_gate.py:805-808 | what is left of the listing is each place whose file is not excluded, once and in order |
| ExclusionLaws.KeptIffSustained | scripts/assurance_gate.py:715-726 | a file is kept if and only if it lies in a base-free set in which every declared file has a declarer |
| ExclusionLaws.ChainIsKept | scripts/assurance_gate.py:719-726 | every file on a base-free declaration chain that starts at an undeclared root or closes into a cycle is kept |
| ExclusionLaws.BackwardsMeetsBase | scripts/assurance_gate.py:719-726 | every chain of declarers behind an excluded file, walked back to a root or round a cycle, meets the base |
| ExclusionLaws.EndlessWalkMeetsBase | scripts/assurance_gate.py:719-726 | so does every endless walk from declarer to declarer, whatever turns it takes |
| ExclusionLaws.MoreFeaturesKeepMore | scripts/assurance_gate.py:679-726 | enlarging the shippable set never removes a file from what `production_rust` answers, and both sets get an answer or neither does |
| Shipping.LiveDeclarerKeepsExactly | scripts/assurance_gate.py:697-726 | a file with a declarer that is not excluded is dropped if and only if it shuts itself, some declaration of it is withheld or a directory above it is shut |
| Shipping.ExcludedIsNeverCompiled | scripts/assurance_gate.py:635-726 | with no way in from outside, through listed or unlisted files, an excluded file is compiled under no admissible build of any workspace |
| Shipping.SoundExactlyWithoutEntry | scripts/assurance_gate.py:635-726 | for a given build, nothing excluded is compiled if and only if no excluded root keeps itself and no compiled file outside enters the base or, from outside the listing, any excluded file |
| Production.ReadTree | scripts/assurance_gate.py:606-632 | scanning and resolving file by file yields the tree of own cfgs and declarations of the whole workspace |
| Trees.TreeIsTheSites | scripts/assurance_gate.py:606-632 | that tree holds one declaration per `mod` site of a listed file that names a file, in order, and no other; and for each listed file the cfgs it puts on itself |
| Resolution.PlainTarget | scripts/assurance_gate.py:606-632 | a plain `mod` names `name.rs` before `name/mod.rs`, in the child home of its file and the directories of the inline modules around it |
| Resolution.PathTarget | scripts/assurance_gate.py:606-632 | a `#[path]` goes up and down from the declaring file's directory, or the inline module's, and has no other candidate |
| Production.Production | scripts/assurance_gate.py:805-808 | features, scan, resolution and closure together: every source compiled by an admissible build is returned when there is no way in |
| Production.LiveDeclarerIsIgnored | scripts/assurance_gate.py:697-704 | `#[cfg(test)] mod shared;` beside `#[cfg(not(test))] mod shared;` excludes a file that an admissible build compiles |
| Unlisted.UnreadDeclarerIsMissed | scripts/assurance_gate.py:599-632 | a file the listing leaves out names an excluded file, which an admissible build then compiles |
| Gated.WalkIsExact | scripts/bcd_gate.py:363-400 | a node of the product graph is reached if and only if a declaration path from a root leads to the file and crosses, or does not cross, a gate |
| Gated.HalvesAreExact | scripts/bcd_gate.py:395-400 | plain means some gate-free path; gated means reachable with every path gated |
| Gated.Visit | scripts/bcd_gate.py:386-394 | one visit queues exactly the resolved children and records every name, and the gated ones |
| GatedWalk.Split | scripts/bcd_gate.py:363-400 | the worklist terminates and all four returned sets are exact |
| GatedWalk.Excuses | scripts/bcd_gate.py:468-482 | a file is excused if and only if some path leads to it and every path that does, in every unit and revision, crosses a gate; a declaration if and only if it is gated wherever it is made |
| GatedWalk.LiveCountsAsGatedWhen | scripts/bcd_gate.py:387-400 | a live declaration counts as gated if and only if its file is also reached through a gate or the name is also declared under one |
| GatedWalk.SharedDeclarationIsExcused | scripts/bcd_gate.py:387-400 | a concrete unit in which a plainly live `mod` line is excused |
| Layers.Rank | scripts/crate_graph.py:148-165 | placement succeeds if and only if each crate is listed once and the listed crates are the members; places are the listed positions |
| Layers.CheckInvariants | scripts/crate_graph.py:168-192 | accepted exactly when every edge goes strictly down; reported as sideways exactly when an applet depends on an applet |
| Layers.ChainDescends | scripts/crate_graph.py:168-192 | along any dependency chain the tier drops by at least one per edge |
| Layers.AcceptedIsLayered | scripts/crate_graph.py:168-192 | accepted graphs are acyclic, every chain has fewer edges than tiers, no applet reaches an applet through any chain |
| Layers.Firm | scripts/crate_graph.py:140-145 | the worklist ends with exactly the crates reachable from the binaries along non-optional edges |
| Wrap.WrapChunks | scripts/crate_graph.py:297-309 | the loop over `lines`, `plain` and `markup` prints the greedy groups |
| Wrap.WidthIs | scripts/crate_graph.py:297-309 | the measured width is the length of the chunks joined by the separator |
| Wrap.GreedyIsOptimal | scripts/crate_graph.py:297-309 | from any open line, no packing of what is left uses fewer lines |
| Wrap.WrapIsOptimal | scripts/crate_graph.py:297-309 | the groups concatenate to the input, each group of two or more fits the budget, and no such packing has fewer lines |
| Corrections.CorrectedBy | scripts/bundle_gate.py:1369-1383 | terminates on cyclic maps; a row is returned if and only if the chain ends, through inverse rows only, at a row that is not inverse, and it is that row |
| Corrections.CorrectedHasNoCycle | scripts/bundle_gate.py:1369-1383 | every chain from a corrected start is no longer than its ending one and repeats no name |
| Corrections.ByNameIs | scripts/bundle_gate.py:1389-1389 | the last row of a name stands for it, and no other name is known |
| Corrections.Reported | scripts/bundle_gate.py:1423-1438 | a row is reported if and only if it is superseded and names no other row or reaches no correction |
| Corrections.CleanReportHasNoCycle | scripts/bundle_gate.py:1423-1438 | with nothing reported, no chain from a superseded row, or from the row it names, meets a name twice |
| Strippers.SlowLine | formal/tla-lint.py:36-56 | the character loop over one line computes `Slow` |
| Strippers.FastLine | scripts/assumption_gate.py:101-127 | the find loop over one line computes `Fast` |
| Strippers.FlatLinesAgree | scripts/assumption_gate.py:101-127 | on a line with no comment opened inside a comment both leave the same text and depth, from depth 0 or 1 |
| Strippers.FastDepthIsABit | scripts/assumption_gate.py:101-127 | the find-based depth stays 0 or 1 |
| StripModules.SlowModule | formal/tla-lint.py:36-56 | one stripped line per line, depth carried across lines |
| StripModules.FastModule | scripts/assumption_gate.py:101-127 | the line stripper folded over a module with the depth carried |
| StripModules.FlatModulesAgree | formal/tla-lint.py:36-56 | without nesting the two strippers give the same lines and final depth |
| StripModules.AgreeExactlyWithoutNesting | formal/tla-lint.py:36-56 | the two agree on every prefix of a module if and only if no comment is opened inside an open one |
| StripModules.NestedCommentDiffers | scripts/assumption_gate.py:101-127 | on one line with a nested comment the counting stripper is still inside and the find-based one shows the text after it |
| Splice.SpliceKeepsTheRest | scripts/assurance_gate.py:1142-1148 | an accepted page is one marked region, and the splice changes the region and nothing before or after it |
| Splice.AcceptedExactly | scripts/assurance_gate.py:1142-1148 | a page is accepted if and only if each marker stands on it once, in order |
| Splice.CleanAfterSplice | scripts/assurance_gate.py:1142-1170 | the page is clean after the splice if and only if the new body carries no marker |
| Splice.RepeatedMarkerIsNotClean | scripts/assurance_gate.py:1142-1170 | a block holding its own start marker is spliced in and the page is then rejected |
| Splice.LastSpliceWins | scripts/assurance_gate.py:1142-1148 | splicing twice is splicing the second block |
| Splice.TwoIsTooMany | scripts/assurance_gate.py:1142-1144 | a marker at two places is refused |
| Splice.TheMarkersAreProper | scripts/comutate.py:122-123 | the four markers of the two gates are well formed and pairwise different, so none straddles a seam |
| SpliceTwo.ApartSplicesCommute | scripts/comutate.py:531-537 | on a page with two regions the two gates' splices give one page in either order |
| SpliceTwo.SwallowedMarkerIsLost | scripts/comutate.py:531-537 | a region holding the other gate's start marker swallows it and the second splice is refused |
| SpliceTwo.CommuteExactlyWhenApart | scripts/comutate.py:531-537 | both orders succeed if and only if the regions are disjoint, and then give the same page |
| Sizes.SizesReadBack | firmware/build.rs:855-870 | reading a printed number in decimal or hex with any unit spelling gives number times unit, nothing exactly on u32 overflow |
| Sizes.PrintReadsBack | firmware/build.rs:855-870 | printed digits in base ten or sixteen have the number's value |
| Flash.AcceptedTilesExactly | firmware/build.rs:838-889 | an accepted split puts code, KVMAIN and KVCNT contiguous, sector aligned, ending at the highest sector boundary on the chip and not above the E10 sector, with at least 1 MiB of code and no kilobyte lost, if and only if the KV sum fits in u32 |
| Flash.UsableIsTop | firmware/build.rs:43-45 | the usable flash is the one highest sector boundary that is on the chip and at or below 0xFFF000 |
| Flash.AcceptedExactly | firmware/build.rs:838-852 | a split is accepted if and only if both partitions and 1 MiB of code go below that boundary; where the sum overflows, only by wrapping arithmetic and its remainder |
| Flash.WrappedSumIsAccepted | firmware/build.rs:820-852 | `FLASH_SIZE=4M KVMAIN=4194176K` passes every size check and its sum wraps to zero: accepted by wrapping arithmetic, refused by checked arithmetic |
| Boards.ParseToml | firmware/build.rs:208-238 | the section loop leaves the last `[flash] size_mb`, or aborts at the first unreadable one |
| Boards.BoardValue | rsk-wipe/build.rs:131-152 | the section loop returns the first value of a key in a section |
| BoardLines.KeyIsRead | firmware/build.rs:161-227 | `key = value` with any blanks and a trailing comment is read as that key and value by both readers; a `#` in quotes stays for the firmware |
| BoardLines.HeaderIsRead | rsk-wipe/build.rs:138-143 | a section header with blanks inside and outside its brackets is read as its name by both |
| BoardLines.RemarkSaysNothing | firmware/build.rs:208-212 | a blank line or a comment says nothing to either |
| BoardLines.NumberIsRead | firmware/build.rs:188-195 | a decimal or 0x number, quoted or not, is read back unless it exceeds u32 |
| BoardLines.UnderscoreIsIgnored | firmware/build.rs:188-195 | an underscore anywhere in a number changes nothing |
| BoardLines.PrefixesAreRead | firmware/build.rs:188-195 | a repeated 0x, a plus sign and leading zeros change nothing, and nothing at all is no number |
| BoardLines.SizesAreTaken | firmware/build.rs:799-832 | which written sizes each script takes, with blanks around them and before the unit: whole sectors, at most 16 MiB of flash, at least 128 KiB of store, at least 64 KiB to erase |
| BoardLaws.LineReadsAlike | rsk-wipe/build.rs:138-150 | on any line that is not a header with `#` on it, both readers see the same section or the same size value |
| BoardLaws.FilesReadAlike | firmware/build.rs:208-238 | on files whose headers carry no `#`, both readers see the same size values in the same order |
| WipeLaws.OneValueOneSize | rsk-wipe/build.rs:155-170 | a value both scripts accept is the same number of bytes to both |
| WipeLaws.WiperCountsMegabytes | rsk-wipe/build.rs:155-170 | any board value is read by the wiper as a count of megabytes or refused |
| WipeLaws.SizesAgreeExactly | rsk-wipe/build.rs:86-152 | on every file both scripts accept, the sizes are equal if and only if the first value the wiper sees and the last one the firmware sees, or its default, are one number |
| WipeLaws.EraseCoversExactly | rsk-wipe/build.rs:86-152 | on every such file and every accepted layout, the erase holds KVMAIN and KVCNT to their last byte if and only if the wiper's first value is at least the firmware's last, or its default |
| WipeLaws.EraseCoversTheStore | firmware/build.rs:208-238 | where no section header carries a comment, the erase covers the store if and only if the first `size_mb` is at least the last |
| WipeLaws.RepeatedKeyLeavesTheStore | rsk-wipe/build.rs:131-152 | with `size_mb` 4 then 16 the firmware lays out 16 MiB, the wiper erases 4 MiB, and with the default KVMAIN the whole store lies above the erased range |
| WipeLaws.CommentedHeaderLeavesTheStore | rsk-wipe/build.rs:131-152 | a commented section header between the two sizes leaves the whole store above the erased range as well |

## Left out

- The regular expressions that turn Rust text into scanner tokens: the scan takes tokens; the blanker below it and the end and body of an attribute are proved on text.
- `mod` declarations that macros or `include!` produce.
- CfgLaws.ReadsEverySpelling: an operand's quoted value has balanced parentheses and no fragment that is answered definitely; a value with a quote is no legal spelling. As a gate of its own a value may hold anything but a quote.
- AttributeLaws.ReadsEveryAttribute: a `cfg_attr` whose own predicate is a bare quoted value with a top-level comma, and other attributes inside a `cfg_attr` that a comma cuts into a `cfg`, are not covered.
- Resolution is shared, not compared: what a declaration names is taken from the gate's own rule on both sides of the soundness theorem, and a `path` inside a `cfg_attr` is ignored by both. That rule is stated apart for operands that do not climb above the root.
- Symbolic links and absolute `#[path]` operands: paths are component lists already rooted at the workspace.
- Exclusion.ProductionRust: keeps the order of the listing; that the listing is sorted first is not modelled.
- The reason strings of the exclusion mapping: only its keys decide anything.
- Python's IndexError on `not()` is a verdict of its own (`Raises`), and a gate that raises yields no result.
- Scan.ScanFile: takes the position as a count of tokens rather than of characters.
- GatedWalk.Split: takes declarations already read and resolved to files; the attribute reading of `bcd_gate.py` and its line-by-line judgement are not modelled.
- `read_by_an_action` in `scripts/assumption_gate.py`: one more reachability search, like the three worklists modelled.
- The readings, dispositions and field checks of `mutation_dispositions` other than the correction chain.
- The template text around the MEMORY block: the layout models the numbers written into it.
- Board keys other than `[flash] size_mb` and their aborts, and the FLASH_SIZE override of the board file.
- WipeLaws.EraseCoversExactly: speaks of files both scripts accept; a file either of them refuses builds nothing.
- The security state machines in Rust and TLA+, and every other gate (claims, citations, bounds, exports).
- Git, subprocess, cargo, TLC and file-system calls: their results are parameters.
- Floors, ledgers, exemption lists, message wording, SVG geometry, GPIO, LED, display and USB resolvers: single-branch checks and presentation.
