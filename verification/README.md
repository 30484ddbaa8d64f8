# deploy-core: verified model

This project models the parts of deploy-core where a mistake would be hardest to see in a
review, and proves what they promise. It is plain Dafny 4.11; `dafny verify dfyconfig.toml`
checks all of it.

Five independent parts, hardest first.

1. **Activating a generation of trust material** (`src/generation.rs`). A tree root holds numbered
   generation directories and an `active` symlink. `FileSystem` is a file system seen twice: what a
   process reads now, and what a crash may leave. A directory remembers, for every name changed since
   its last flush, the bindings that were superseded; a crash gives each name its current binding or
   one of those, independently of every other name. That this is the same as keeping an arbitrary
   subset of the unflushed updates is proved both ways (`SubsetsSurvive`, `SurvivorsAreSubsets`).
   `GenerationMachine` is `activate_generation` as a step machine over it: any step that touches the
   disk may fail, the machine may stop between any two steps, writes may be torn, and recursive
   deletion goes one entry at a time. `GenerationInvariant`, `GenerationSteps` and `GenerationFrame`
   prove what every step keeps; `GenerationTheorems` states the promises over all runs. `GenerationDurability`
   says what a crash takes back and when, and `GenerationWitness` exhibits the runs. `GenerationCode` is the
   imperative code under a schedule of which operations fail: each execution is a run of the machine, and it
   succeeds exactly when nothing fails and nothing in the tree is in the way. `GenerationMoves` has the steps
   of each part of it, and `GenerationRecovery` shows that nothing the engine leaves is ever in the way.
2. **The retained-disk budget and the single-pass snapshot** (`src/retain.rs`, `src/package.rs`).
   `BudgetMachine` has every interleaving of any number of charges, one atomic instruction a step;
   `Retain` has the writer, the copy loop and the positional reader as the code runs them, under schedules of
   which reads and writes are interrupted, fall short or fail.
3. **Docker references, runtime aliases and versions** (`src/image.rs`). `Regex` gives regular expressions
   a declarative meaning; `ImageGrammar` proves the hand-written scanners equal to the grammars they
   document; `ImageReference` and `ImageDeclaration` prove normalisation, the aliases and the declaration's validator;
   `ImageReading` says what each reference is read as, without the parser.
4. **Unit files** (`src/systemd.rs`, `src/render.rs`, `src/module_spec.rs`). `Systemd` has the escaping
   rule and a decoder for it, `ModuleSpec` the validator, `SpecGrammar` the grammars it documents, `UnitText` the
   canonical layout and a reader for the whole file, and `Render` the renderer. What renders reads back, and each
   value is the context field its variable names.
5. **Manifests, differences, templates and digests** (`src/manifest.rs`, `src/engine.rs`,
   `src/config_template.rs`). `Manifest` has the two doors and the one validation point,
   `ManifestReading` what a document becomes through each, field by field, `ArtifactDiff` the classification as a patch, `SpecDigest` the digest document and hexadecimal form, and
   `ConfigTemplate` the in-place substitution.

`Options`, `Text`, `Paths` and `Decimal` are shared: result shapes, splitting and joining, the components of a path,
decimal spelling. Each operation's contract is stated twice over: against the functions its code calls, and, for what
decides it, in terms of the characters, fields and positions themselves.

## Findings

- The documentation of `activate_generation` says that what a reader resolves after a crash is never an
  `active` naming material that did not land. That holds, over every run (`RecoveryFindsAcceptedMaterial`).
- `changed: false` does not promise durability. From an empty tree, when only the flush after the swap fails,
  the repeated call finds its files live, writes nothing and answers `changed: false`, and a crash then leaves
  nothing published at all (`UnchangedAnswerCanBeLost`; `OneFileLosesItsAnswer` with one file). The answer is
  durable exactly when no earlier call ended with an error after its swap and before the swap's flush, with
  neither a later flush of the root nor a stop in between (`UnchangedIsDurableExactlyWhenFlushed`). What is
  lost is then always a change: a superseded binding publishes a smaller index, or nothing
  (`SupersededPublishesOlder`).
- Recovery by another activation is blocked by exactly three things: a directory at `active.tmp`, a plain file
  at a generation's or a staging directory's name, or no index left (`Activate`). None of the first two is ever
  the engine's own doing, in any run or crash outcome (`RecoveryIsNeverBlocked`).
- A unit's file name does not determine the namespace, service and instance it was made from: hyphens inside
  a component and between components look alike (`DifferentContextsShareAFileName`). Two contexts share a file
  name exactly when their hyphen-separated pieces agree end to end (`SameFileNameExactly`).
- The flush between finalising and swapping is needed: leaving it to the flush after the swap admits a crash
  in which `active` names a generation that is not there (`OneFlushAfterTheSwapIsNotEnough`).

## Model

| member | source | states |
|---|---|---|
| GenerationNames.ParsesExactlyGenerations | src/generation.rs:427-432 | for every name, `parse_generation` gives n exactly for `gen-` and the canonical decimal of a 64-bit n |
| GenerationNames.ParsesExactlyStages | src/generation.rs:444-450 | for every name, `parse_tmp_generation` gives n exactly for that generation name followed by `.tmp` |
| GenerationNames.NameClassesAreDisjoint | src/generation.rs:427-483 | the four classes of engine-owned names share no name, and an index has one name in each |
| GenerationNames.SingleComponentExactly | src/generation.rs:345-355 | a name may be used exactly when its path components are that one name: the pieces between slashes, empty and `.` ones dropped, a root, a leading `.` and `..` marked |
| GenerationNames.NamesAreSpelled | src/generation.rs:427-483 | the engine-owned names, letter by letter |
| FileSystem.SubsetsSurvive | src/generation.rs:279-300 | a crash keeping any subset of the unflushed entry updates is one the model admits |
| FileSystem.SurvivorsAreSubsets | src/generation.rs:279-300 | every crash outcome the model admits keeps some subset of the unflushed entry updates |
| FileSystem.CrashKeepsWellFormed | src/generation.rs:279-300 | after a crash every entry still names an allocated inode |
| GenerationSteps.StepKeepsInv | src/generation.rs:237-310 | every step, failure, crash and new call keeps: whatever `active` may be bound to in any crash outcome is a link to a generation durably holding an accepted file set |
| GenerationSteps.AllocateKeeps | src/generation.rs:392-401 | the allocated index is above every index ever live and above every generation present |
| GenerationFrame.StepKeepsFrame | src/generation.rs:203-236 | every step keeps the entries of others, the generations already there until publication, and what `active` resolves to until the swap |
| GenerationTheorems.RunsKeepInvariants | src/generation.rs:237-310 | both hold at every instant of every run of activations, however each was cut short |
| GenerationTheorems.RecoveryFindsAcceptedMaterial | src/generation.rs:191-196 | wherever a run stops, recovery finds `active` absent or naming a directory holding exactly a file set some validator call accepted |
| GenerationTheorems.ReadersSeeAcceptedMaterial | src/generation.rs:191-196 | the running system's readers see the same at every instant |
| GenerationTheorems.AcceptedByAValidator | src/generation.rs:265-277 | a file set counts as accepted only because a validator accepted that set as read back from staging |
| GenerationTheorems.CrashLeavesOldOrNew | src/generation.rs:280-301 | a crash inside a call publishes the call's own set under its own index, or something a crash at the start of the call could already have published |
| GenerationTheorems.OneFlushAfterTheSwapIsNotEnough | src/generation.rs:289-294 | without the flush before the swap, a crash can leave `active` naming a generation that is absent |
| GenerationTheorems.IndicesOnlyIncrease | src/generation.rs:392-401 | no index `active` named, before a crash or in one, is allocated again: every later index is greater |
| GenerationTheorems.ErrorLeavesOneOfThree | src/generation.rs:203-236 | the failing step decides: nothing published, or one complete unreferenced generation more, or the new set live |
| GenerationTheorems.ChangedMeansInstalled | src/generation.rs:302-310 | `changed: true` publishes exactly the call's files, durably; among engine names only `active` and that generation remain, whatever earlier calls left; other entries are untouched |
| GenerationTheorems.UnchangedMeansAlreadyThere | src/generation.rs:248-256 | `changed: false` wrote nothing, names the live generation, and each file reads so through `active` |
| GenerationTheorems.RepeatIsANoOp | src/generation.rs:233-236 | repeating a successful call changes nothing and answers the same index |
| GenerationTheorems.UnflushedSwapAnswersUnchanged | src/generation.rs:233-236 | every run that stands at the swap's flush extends, by that flush failing, to a repeated call that answers unchanged and a crash that restores the old binding |
| GenerationDurability.SwapDecidesTheCrash | src/generation.rs:280-301 | before the swap a crash leaves what a crash at the call's start could; from the swap's flush on only the call's set; between the two the one and the other are both possible |
| GenerationDurability.SupersededPublishesOlder | src/generation.rs:392-401 | in every run, a binding of `active` a crash may restore in place of the current one publishes a smaller index, or nothing |
| GenerationDurability.SupersededExactlyWhenUnflushed | src/generation.rs:295-301 | such a binding is there exactly when the history holds a swap with neither a flush of the root nor a stop after it |
| GenerationDurability.UnchangedIsDurableExactlyWhenFlushed | src/generation.rs:248-256 | an unchanged answer survives every crash if and only if no earlier call failed between its swap and the swap's flush, without a flush of the root or a stop since |
| GenerationWitness.EverySetIsInstalled | src/generation.rs:237-310 | for every well-formed file set there is a run from the empty tree that ends `changed: true` and publishes exactly that set |
| GenerationWitness.UnchangedAnswerCanBeLost | src/generation.rs:248-256 | for every well-formed file set there is a run from the empty tree that answers `changed: false` and a crash after it that publishes nothing |
| GenerationWitness.OneFileLosesItsAnswer | src/generation.rs:248-256 | one such run, with one empty file |
| GenerationRecovery.StepKeepsClear | src/generation.rs:228-236 | no step, failure or crash leaves a blocking entry where there was none |
| GenerationRecovery.RecoveryIsNeverBlocked | src/generation.rs:228-236 | from a tree with no blocking entry, at every instant of every run and in every crash outcome, the next activation is blocked only by the last index being taken |
| GenerationCode.CheckFiles | src/generation.rs:319-355 | accepted exactly when the set is nonempty, every name is the only component of itself and no two agree; a refusal is for the emptiness, or names the first file to break a rule and the rule |
| GenerationMachine.CheckMaterialExactly | src/generation.rs:319-355 | the same for the check the machine starts with |
| GenerationCode.NextGeneration | src/generation.rs:392-401 | one more than the greatest generation present, 1 when there is none |
| GenerationCode.CompareFiles | src/generation.rs:355-366 | whether every file reads byte for byte through `active`, stopping at the first that does not |
| GenerationMoves.AlreadyThereExactly | src/generation.rs:248-256 | the check before any write answers yes exactly when every file of the set is published with its bytes |
| GenerationCode.ReadFiles | src/generation.rs:267-271 | the staged files as read back, in order |
| GenerationCode.CopyIsExact | src/generation.rs:265-271 | what the validator is given is exactly the caller's names and bytes |
| GenerationCode.GenerationTree.Recover | src/generation.rs:237-310 | any crash outcome extends the run, so recovery is part of every later claim |
| GenerationCode.GenerationTree.RemoveDirAllIfPresent | src/generation.rs:583-589 | entry by entry; succeeds exactly when the name ends up unbound, stops only at a plain file or where the next operation fails, and changes no other root entry |
| GenerationCode.GenerationTree.WriteFile | src/generation.rs:544-560 | created anew, written, perhaps torn, and flushed, as steps of the machine; succeeds exactly when no operation fails |
| GenerationCode.GenerationTree.SwapActive | src/generation.rs:471-483 | the rename over `active` and the flush that makes it durable, as steps of the machine; succeeds exactly when neither fails |
| GenerationCode.GenerationTree.Prune | src/generation.rs:405-418 | every doomed entry of one listing removed, as steps of the machine; succeeds exactly when no operation fails and no doomed name is a plain file |
| GenerationCode.GenerationTree.Activate | src/generation.rs:237-310 | for the code itself, one call asking the disk for nothing but the machine's steps: it succeeds if and only if no operation fails, the set is nonempty with each name the only component of itself and no two alike, and either every file is already published or the validator accepts them and nothing blocks; success publishes the accepted files and every crash outcome publishes the same, or wrote nothing; a refusal names the first offender and changes nothing; any other failure leaves readers on the old set or the new one; foreign entries stay |
| BudgetMachine.StepKeepsInv | src/retain.rs:278-326 | every atomic step of any thread keeps the total within the limit and equal to the sum of all shares |
| BudgetMachine.NeverOverLimit | src/retain.rs:279-305 | under every interleaving `used` stays within the limit and equals live charges plus in-flight updates |
| BudgetMachine.SubtractionsNeverWrap | src/retain.rs:315-326 | the unchecked subtractions of `shrink` and `drop` are always covered |
| BudgetMachine.PeakIsTheMaximum | src/retain.rs:290-299 | the recorded peak is the greatest total there has been, and was one |
| BudgetMachine.QuiescentBooksBalance | src/retain.rs:282-326 | with no update in flight, `used` is what the live charges hold, `high_water` is exactly the historical maximum, and each writer's charge is its length |
| BudgetMachine.GrowthAlone | src/retain.rs:282-304 | the three steps of a growth, with no other thread between them, take the request in full or all that was left, on charge and total alike, and raise the mark to the total reached |
| BudgetMachine.GrowthIsRefusedExactly | src/retain.rs:282-304 | a resting thread can grow exactly when it asks for something and the budget is not full |
| BudgetMachine.RefundAlone | src/retain.rs:315-319 | the two steps of a refund give back what was asked, or all the charge holds |
| BudgetMachine.EveryStepCounts | src/retain.rs:278-326 | the runs hold every step of every thread: any request, any part of a write that lands, any refund |
| BudgetMachine.NoThreadIsStuck | src/retain.rs:278-326 | in every reachable state each thread can take its next step, whatever part of a write lands and whatever the others do |
| Retain.BudgetCharge.Grow | src/retain.rs:282-304 | grants the lesser of the request and what is left, and books exactly that |
| Retain.BudgetCharge.Shrink | src/retain.rs:315-319 | gives back at most what the charge holds, to the charge and the total alike |
| Retain.BudgetCharge.Drop | src/retain.rs:322-326 | gives everything back |
| Retain.SnapshotWriter.Write | src/retain.rs:862-887 | exact for every fate of the write: what landed is a prefix of the buffer and exactly what stays charged; refused for the budget exactly when no room is left, and by the device exactly when the device fails |
| Retain.SnapshotWriter.WriteAll | src/retain.rs:862-916 | interrupted writes are retried; a device failure is reported exactly when a write failed or took nothing; success appends the whole buffer, and a budget refusal means it did not fit |
| Retain.Copy | src/retain.rs:583-623 | for every cut of the source's reads and the disk's writes: an I/O error exactly when one of them failed, and otherwise exactly what length, bound and room decide, reading at most one byte past the bound, with no more reads or writes than bytes call for past the interrupted ones |
| Retain.SnapshotFrom | src/retain.rs:569-623 | an I/O error exactly when the file could not be created, a read or a write failed, or finishing failed; otherwise success, too long and over budget are each an if-and-only-if over length, bound and room; reads and writes past the interrupted ones are bounded by the bytes; success holds the source's bytes and charges their length, failure restores the budget |
| Retain.RetainedReader.Read | src/package.rs:410-434 | fails exactly when the positional read does; otherwise a nonempty front of the buffer is the bytes at the cursor, 0 only at the end or for an empty buffer, the rest of the buffer untouched |
| Retain.RetainedReader.Seek | src/package.rs:437-453 | the target when it is a 64-bit position, and otherwise an error with the cursor unmoved |
| Retain.ReadInterleaved | src/package.rs:396-453 | two readers of one snapshot, read in any interleaving, each give the source from its start; it fails exactly when one of the reads does, and otherwise every turn with bytes left advances its reader |
| Retain.ReadToEnd | src/package.rs:410-434 | reading to the end gives the whole snapshot however each read is cut, unless a read fails |
| Regex.SepByIsSplit | src/image.rs:848-893 | a separated list whose items cannot hold the separator is exactly a list of split pieces, each an item |
| ImageGrammar.CharacterClassesAre | src/image.rs:813-932 | the character classes of the grammars, character by character |
| ImageGrammar.ComponentUnfolds | src/image.rs:813-845 | a path component is a maximal run, alone or followed by a maximal separator and a component |
| ImageGrammar.IsValidPathComponent | src/image.rs:813-845 | the scanner's loop accepts exactly the regular language its documentation gives |
| ImageGrammar.DomainIs | src/image.rs:847-875 | the domain predicate accepts exactly a domain name or bracketed IPv6 address with an optional numeric port |
| ImageGrammar.DomainComponentIs | src/image.rs:877-890 | the component predicate accepts exactly its documented language |
| ImageGrammar.SemverIs | src/image.rs:892-932 | the version predicate accepts exactly the grammar of sections 2, 9 and 10 of Semantic Versioning 2.0.0 |
| ImageGrammar.PrereleaseIdentifierIs | src/image.rs:908-916 | prerelease identifiers: numeric without leading zeros, or with a non-digit |
| ImageGrammar.CoreIs | src/image.rs:904-907 | the core is exactly three numeric identifiers between two dots |
| ImageReference.TagIs | src/image.rs:803-811 | the tag predicate accepts exactly `[A-Za-z0-9_][A-Za-z0-9_.-]{0,127}` |
| ImageReference.NormalizesToNormal | src/image.rs:759-777 | whatever normalises has a valid domain and path, bounded, unabbreviated, never under the legacy registry |
| ImageReference.NormalisationIsAFixedPoint | src/image.rs:700-719 | printing what was parsed and parsing again gives the same domain, path and tag |
| ImageReference.ParserRange | src/image.rs:700-719 | the parser reaches exactly the references whose registry has a letter `A` to `Z`, a `.` or a `:` in it, or is `localhost`, within the domain grammar, with an unabbreviated path of at most 255 bytes and a valid tag |
| ImageReading.SplitsAtTheRegistry | src/image.rs:779-801 | a name divided at its first slash: what stands before it is the registry exactly when it is `localhost` or has a `.`, a `:` or a capital in it, the legacy registry read as the present one, and otherwise the whole name is a path on the default registry |
| ImageReading.ParsesExactly | src/image.rs:700-777 | a reference is accepted as a given registry, path and tag if and only if it is a name, a colon and the tag, the name reads as that registry and path, and all three are in their grammars |
| ImageReading.PortsNameRegistries | src/image.rs:786-793 | any host with a port, a path and a tag parse to exactly those parts |
| ImageReading.RefusalsAre | src/image.rs:700-719 | which refusal a reference gets: empty, a digest, no tag, a bad tag, then the name's own |
| ImageReading.NameRefusalsAre | src/image.rs:759-777 | which refusal a name gets: 64 hexadecimal digits, a capital in the path, the registry, the path, its length |
| ImageReading.RepositoriesExactly | src/image.rs:721-740 | a repository is accepted exactly when it is a registry, a slash and an unabbreviated path |
| ImageReading.RepositoryRefusalsAre | src/image.rs:721-740 | which refusal a repository gets: empty, a digest, a tag, then the name's own, then the form it should have had |
| ImageReference.PrintIsInjective | src/image.rs:669-676 | two normal references with one printed form are one reference |
| ImageReference.CanonicalRepositoriesAreThePrintedNames | src/image.rs:721-740 | a repository is accepted exactly when it is the printed domain and path of some valid name |
| ImageReference.NotCanonicalNamesTheCanonicalForm | src/image.rs:733-739 | the form a refusal names is itself accepted |
| ImageReference.DefaultRegistrySpellingsAgree | src/image.rs:779-801 | the five spellings of a one-component name on the default registry normalise alike, errors included |
| ImageDeclaration.AliasParse | src/image.rs:601-622 | for valid segments and digest, the path rules alone decide what parsing the alias gives |
| ImageDeclaration.AliasSucceedsExactly | src/image.rs:588-622 | an alias exists exactly for valid segments and digest, each segment a Docker path component and the path within 255 bytes |
| ImageDeclaration.AliasExactly | src/image.rs:588-622 | the alias letter by letter, and when there is none which of the inputs is refused first |
| ImageDeclaration.AliasIsItsOwnNormalForm | src/image.rs:612-622 | an alias parses to its own parts and prints as itself |
| ImageDeclaration.AliasIsInjective | src/image.rs:601-622 | distinct namespace, component, dependency or digest give distinct aliases |
| ImageDeclaration.CheckReferences | src/image.rs:450-469 | accepted exactly when nonempty, all parse and no two normalise alike; a refusal names the first offender and what it repeats |
| ImageDeclaration.Validate | src/image.rs:440-480 | accepted exactly when every syntax rule holds, each rule spelled out in characters and grammars; a refusal names a broken rule, every rule checked before it being kept |
| ImageDeclaration.ProvenanceIs | src/image.rs:537-582 | a provenance is accepted exactly when its tag, version, digests, repository and commit each are in their grammar, and refused for the first that is not |
| ImageDeclaration.ExplanationIsUnique | src/image.rs:440-480 | only one refusal fits a declaration, down to which reference and which earlier one it repeats |
| ImageDeclaration.ThirdPartyIsValidExactly | src/image.rs:509-534 | a declaration built around an alias is refused only for its variant or provenance |
| ImageDeclaration.NormalizedThirdParty | src/image.rs:509-534 | what it builds holds exactly what it was given, with the alias as its one reference; it is refused as the alias is, and otherwise exactly for an empty variant or the provenance |
| Systemd.DoubleIsOnePass | src/systemd.rs:93-101 | the two replacements that double `%` and `$` are one pass over the characters |
| Systemd.QuoteIsOnePass | src/systemd.rs:116-120 | the two replacements that escape a backslash and a quote are one pass over the characters |
| Systemd.RenderingIs | src/systemd.rs:64-91 | an argument stands bare exactly when it is a nonempty word of printable ASCII without quotes or backslashes, and quoted otherwise; `%` and `$` are doubled in it, `%` alone in an environment entry, which is always quoted, and in a description, which never is |
| Systemd.RepresentableIs | src/systemd.rs:48-58 | a value is representable exactly when it is nonempty and no character of it is a control character, by code point |
| Systemd.NoArgumentRendersAsMainPid | src/systemd.rs:77-91 | no argument text ever renders as the bare main-pid expansion |
| Systemd.ReadRendered | src/systemd.rs:64-75 | a rendered element is read back and reading stops where it ends |
| Systemd.ParseRenderedArgs | src/systemd.rs:64-75 | a space-joined list of any elements tokenises and unescapes back to the list |
| Systemd.RenderArgsIsInjective | src/systemd.rs:73-75 | two lists with one line are one list |
| Systemd.ParseRenderedEnvironment | src/systemd.rs:69-71 | an environment entry gives back its key and value |
| ModuleSpec.NoUnitErrorIsValid | src/module_spec.rs:774-844 | the ordered checks find nothing exactly when every rule holds |
| ModuleSpec.NoProfilesErrorIsValid | src/module_spec.rs:846-925 | the same for the privilege-profile rules |
| ModuleSpec.ValidatePrivilegeProfiles | src/module_spec.rs:852-925 | the loops report the first rule's violation, whichever profile carries it |
| ModuleSpec.ValidateUnit | src/module_spec.rs:776-844 | the first violated rule, and success exactly when none is |
| ModuleSpec.FindRepeat | src/module_spec.rs:836-841 | inserting into a set finds the first element that repeats an earlier one |
| SpecGrammar.UnitKindsAre | src/module_spec.rs:753-766 | native binaries and compose bundles carry a unit, static assets and container images none |
| SpecGrammar.EnvironmentKeyIs | src/module_spec.rs:978-993 | an environment key is exactly `[A-Za-z_][A-Za-z0-9_]*` |
| SpecGrammar.DnsLabelIs | src/module_spec.rs:995-1007 | a label is exactly lowercase letters, digits and inner hyphens, at most 63 |
| SpecGrammar.ProcessPathIs | src/module_spec.rs:1009-1012 | a process path is exactly a slash and printable ASCII but the space |
| SpecGrammar.ContainerNameIs | src/module_spec.rs:1014-1028 | a container name is exactly `[a-zA-Z0-9][a-zA-Z0-9_.-]*`, at most 255 characters |
| ModuleSpec.Validate | src/module_spec.rs:753-772 | accepted exactly when the kind rule, the unit rules and the registration rules hold; otherwise the first rule broken, in that order |
| UnitText.RenderSplitsIntoLines | src/module_spec.rs:79-108 | the text splits on newlines into exactly the intended lines in canonical order |
| UnitText.LinesAreSpelled | src/render.rs:488-597 | those lines in full: sections, directive names, order and which of them a unit has |
| UnitText.VocabularyIsSpelled | src/module_spec.rs:343-475 | the targets, accounts, groups and capabilities as systemd reads them |
| UnitText.ValuesDecode | src/render.rs:488-597 | every directive's values decode to the field they came from |
| UnitText.ParseRendered | src/render.rs:488-597 | the rendered file reads back to exactly the resolved unit: every value, list, account, group, capability and optional presence |
| UnitText.RenderIsInjective | src/render.rs:488-597 | two well-formed units with one text are one unit |
| Render.PrivilegesResolveExactly | src/render.rs:371-416 | a selection resolves exactly when it names a declared profile and, unless root, an account is supplied |
| Render.ResolvesExactly | src/render.rs:635-680 | each of the eleven variables resolves to the context field of its name, a literal to itself; an unset manager endpoint and a value that cannot be represented are refused, with the variable at fault |
| Render.RendersExactly | src/render.rs:338-350 | a valid template resolves exactly when its selection, its groups and every value can, and then each command element, directory and environment entry is the context field its variable names; otherwise it is refused for the selection, the groups or the first value that cannot |
| Render.RootProfileIsRunAs | src/module_spec.rs:124-126 | selecting the root profile renders what a template declaring `run_as` renders |
| Render.ResolvedIsWellFormed | src/module_spec.rs:776-844 | a validated template resolves to one-line values, the main pid in `ExecReload=` only, and groups only under a user |
| Render.IdentityLines | src/render.rs:511-551 | account, groups and capability lines, refused when groups have no account |
| Render.ExecLines | src/render.rs:552-574 | command, directory and environment lines, or the first value that does not resolve |
| Render.LimitLines | src/render.rs:575-590 | restart, limit and sandbox lines |
| Render.RenderArgList | src/render.rs:610-616 | the joined list, or the first element that does not resolve |
| Render.EnvironmentLines | src/render.rs:564-573 | one line an entry in declared order, or the first value that does not resolve |
| Render.RenderText | src/render.rs:488-597 | the pushed lines are the canonical layout of the resolved unit, or the first error and no text |
| Render.RenderUnit | src/render.rs:338-350 | renders exactly when the spec is valid, the selection, groups and components can be used and every value of the template can be resolved; the text parses back to a unit that says, position by position, the context field each variable names and every literal and setting of the template; the file name is the three components joined; a refusal is the spec's first violation, else the privileges', else the file name's, else the first value's |
| Render.SameFileNameExactly | src/render.rs:455-469 | two contexts share a file name if and only if their components' hyphen-separated pieces agree end to end |
| Render.PlainComponentsAreToldApart | src/render.rs:455-469 | components without a hyphen are determined by the file name |
| Render.DifferentContextsShareAFileName | src/render.rs:455-469 | three different choices of components that give one file name |
| ConfigTemplate.SubstituteIsPointwise | src/config_template.rs:234-281 | failure is the first violation in traversal order; success keeps the shape and replaces each position once, rescanning nothing |
| ConfigTemplate.SubstituteSucceedsExactly | src/config_template.rs:218-225 | success exactly when no key at any depth holds the opener and every text is a supplied token or free of it |
| ConfigTemplate.SubstitutesExactly | src/config_template.rs:247-281 | a text that is one of the five tokens, spelled out, becomes the host value of that name and nothing else changes; otherwise the error is the first position's that holds `${` in a key, is an unsupplied token, or holds `${` without being a token |
| ConfigTemplate.SubstituteTable | src/config_template.rs:234-245 | the loop over entries, rewriting texts in place, refines the substitution |
| ConfigTemplate.SubstituteArray | src/config_template.rs:273-277 | the loop over elements does too |
| ConfigTemplate.SubstituteValue | src/config_template.rs:247-281 | one value rewritten in place, or its first violation |
| Manifest.CheckedArtifactIsValid | src/manifest.rs:1205-1262 | an artifact that passes the checks satisfies every artifact invariant and has a new path |
| Manifest.AcceptedIsValid | src/manifest.rs:1179-1282 | whatever the validation point accepts has unique safe paths, members exactly when versioned, image declarations exactly on container images from format 6, gated specs and a nonempty trust set |
| Manifest.EveryDoorIsValid | src/manifest.rs:1173-1178 | so does what either read door returns |
| Manifest.PlainPathIs | src/manifest.rs:461-488 | an archive path is safe exactly when its components are its pieces, all of them normal |
| Manifest.CommitIs | src/manifest.rs:452-459 | a commit is valid exactly when it is 40 or 64 lowercase hexadecimal digits |
| Manifest.TrustSetRevalidates | src/manifest.rs:1033-1063 | attaching a trust set to an accepted manifest changes only that field, and fails only when empty or on a baseline manifest |
| Manifest.ReleaseBuildCommutes | src/manifest.rs:1065-1078 | marking a release build sets that mark and nothing else, commutes with attaching a trust set and is idempotent |
| Manifest.DoorsAgreeOnVersioned | src/manifest.rs:813-830 | on a document naming a version, both doors accept the same and return the same manifest |
| ManifestReading.ParsesExactly | src/manifest.rs:1158-1177 | `parse` accepts a document as a manifest if and only if every field of the manifest and of each artifact is that document's, absent keys giving nothing and no release mark, the manifest keeps every rule, and it names a version or has the bare shape in a container of the first footer |
| ManifestReading.DeserializesExactly | src/manifest.rs:813-830 | the derived door accepts the same for the documents that name a version |
| ManifestReading.ParseRefusesInOrder | src/manifest.rs:1158-1177 | the version is judged first, then the bare shape with the first key that spoils it, then the types of the keys, then the trust set's text |
| ManifestReading.DeserializeRefusesInOrder | src/manifest.rs:813-830 | the derived door judges the types first, then the missing version, then the trust set's text |
| ManifestReading.ArtifactRefusedExactly | src/manifest.rs:1205-1262 | an artifact is refused for a rule if and only if it breaks that rule and keeps every rule checked before it |
| Manifest.UnversionedIsBaseline | src/manifest.rs:1096-1098 | only `parse` returns an unversioned manifest, only for the baseline conjunction, and it carries no list, trust set, commit, spec or image |
| Manifest.BaselineHasNoKeys | src/manifest.rs:951-960 | the baseline conjunction means no artifact carries either key in any form, nulls included |
| Manifest.ResolveImageAccepts | src/manifest.rs:737-788 | a declaration comes out if and only if one is due, provided and valid; nothing comes out if and only if none is due and the key is absent; each refusal, if and only if its one reason holds |
| Manifest.NewSucceedsExactly | src/manifest.rs:1016-1029 | a producer's manifest is made, unchanged, if and only if every artifact is valid at the newest format, 9, and no path repeats |
| Manifest.Build | src/manifest.rs:1179-1282 | the loop over artifacts computes the validation point's result, first error included |
| ArtifactDiff.DiffArtifacts | src/engine.rs:142-186 | the two loops compute the three lists |
| ArtifactDiff.AddedExactly | src/engine.rs:153-154 | added is every artifact at a path with no installed record, recorded field by field |
| ArtifactDiff.ChangedExactly | src/engine.rs:155-177 | changed is every artifact that differs from the last record at its path in a tuple field, or in its digest other than by the case of ASCII letters, with both digests |
| ArtifactDiff.RemovedExactly | src/engine.rs:180-184 | removed is every installed record at a path no artifact has |
| ArtifactDiff.DigestsAgreeExactly | src/engine.rs:137-140 | digests compare equal exactly when they have one length and at each position one character or the two forms of one ASCII letter |
| ArtifactDiff.SameDigestIsSameBytes | src/engine.rs:137-140 | two SHA-256 digests compare equal exactly when they spell the same 32 bytes |
| ArtifactDiff.DiffIsAPatch | src/engine.rs:123-141 | removing, replacing and inserting what is listed turns the installed map into the new manifest's, up to upper and lower forms of the digests' letters |
| ArtifactDiff.DiffIsDisjoint | src/engine.rs:142-186 | no path is in two of the lists |
| ArtifactDiff.EmptyExactlyWhenAgreed | src/engine.rs:123-141 | nothing is listed exactly when the two already agree |
| ArtifactDiff.NothingIsDropped | src/engine.rs:303-343 | every new or changed artifact of an accepted manifest reaches the install or the stage list |
| ArtifactDiff.ListsHoldExactly | src/engine.rs:303-343 | the two lists hold exactly the new and changed artifacts of their disposition |
| ArtifactDiff.NoopAppliesNothing | src/engine.rs:104-109 | a difference is a no-op exactly when both lists are empty |
| ArtifactDiff.ManifestPathsDetermine | src/manifest.rs:1211-1215 | an accepted manifest has at most one record at a path |
| SpecDigest.DocumentIsTheSet | src/manifest.rs:1362-1404 | two manifests have one digest document exactly when they declare the same (path, component, spec) triples |
| SpecDigest.DocumentIgnoresOrder | src/manifest.rs:1370-1373 | the document is the same under every permutation of artifacts |
| SpecDigest.DocumentIsInPathOrder | src/manifest.rs:1411-1437 | each declared triple stands in the document once, in ascending byte order of the paths |
| SpecDigest.DocumentIgnoresSpecless | src/manifest.rs:1375-1380 | an artifact without a spec contributes nothing |
| SpecDigest.ToHexIsInjective | src/manifest.rs:1476-1480 | distinct digests have distinct hexadecimal forms |
| SpecDigest.HexIsWritten | src/payload.rs:1223-1231 | each byte is its two digits of `0123456789abcdef`, the high one first |
| SpecDigest.WriteHex | src/payload.rs:1223-1231 | two lowercase digits a byte, in order |
| SpecDigest.FromHex | src/manifest.rs:1505-1528 | accepts exactly 64 lowercase hexadecimal characters and gives the digest whose form they are; otherwise the length, or at that length the first bad character |

## Left out

- Permission modes, owners, `systemctl` and what `fsync` does beyond the volatile and durable views; the reload after the swap is an arbitrary success or failure.
- More than one activator at a time, and validators that write to the tree: `activate_generation` is assumed to run alone and `validate` to read only.
- GenerationCode.NextGeneration: the 64-bit overflow of `max + 1`; the allocation step only proceeds when the index fits.
- GenerationMachine: symlinks and nested directories inside a generation directory are not followed; a nested directory goes with its entry. A link target is a single name, and a symlink's text is durable with its entry.
- GenerationCode.GenerationTree.Activate: failures are `Io`, `Rejected` or `ReloadFailed` without their paths and messages. The reads of one comparison, of one listing and of one reading back share one operation of the fault schedule, since any of them failing ends the call alike; finding nothing to remove asks none.
- BudgetMachine: memory orderings; each atomic instruction is one step of a single order.
- Retain: what creating, flushing, identifying and hashing a snapshot's file do; each succeeds or fails. A schedule of reads or writes says which are interrupted, fail, or move how much, and past its end they move all they can. `high_water` in the one-thread code is tied to its own updates only.
- Retain.Copy: the buffer is modelled by the most it can hold, so its reuse between reads is not.
- ImageDeclaration: the JSON decoding of a declaration, its platform's closed spellings and its lifecycle, which no rule reads.
- ImageReference: `NormalizedReference::host`, which only reads the parts back.
- Systemd: systemd's own parser, its line continuation and its specifiers; the decoder is the inverse of the rule the source states.
- Render: `check_placement`, a table of two flags. The `Fixture` account exists in test builds only.
- Render.RenderText: the source pushes onto one vector; here the three groups of `[Service]` lines are pushed by three methods and joined.
- ModuleSpec: JSON spellings of the closed enums. The placement class and the certificate group are carried but no rule of the validator reads them.
- ConfigTemplate: TOML parsing and serialisation. Keys come in the order the parsed table iterates. After an error the half-substituted document, which the source drops, is unspecified.
- Manifest: JSON and base64 text, so `DoorsAgreeOnVersioned` is about decoded documents: the derived door reads JSON text itself and refuses a repeated key, while `parse` goes through a generic value, which keeps the last. A document says of each key whether it is absent, null, of the wrong type or a value; that a declaration's generic `schema` and its typed decoding agree is not assumed. A spec's or a declaration's own error is reported as the artifact's.
- Manifest: `is_safe_archive_path` also scans for a root or a parent component, which on Unix refuses nothing the segment scan does not; other platforms are not modelled.
- ArtifactDiff: the secret-schema and rendered-file axes, which are set differences and a byte comparison.
- SpecDigest: SHA-256 and the JSON of one entry, which is any injective encoding; the sort is the library's, so only its result is modelled.
- Signature verification, payload containers, the trust-set and release-trust documents, the executor, registration and self-update are not part of this model.
