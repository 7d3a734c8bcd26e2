# Provider transactions: what the decision code keeps

Cydia's privileged helper performs package transactions on behalf of a provider. Pure decision
code tells it which dpkg effects were reviewed, which of them happened, and which files may run.
This project models that code, together with the memory-mapped arena and the hash function it is
built on, and proves what each part is for.

| part | modules |
|---|---|
| Debian relationship fields: parser, canonical printer, matcher | `Text`, `BinaryRelationships`, `RelationshipGrammar`, `RelationshipCanonical`, `RelationshipMatching`, `RelationshipWitnesses`; meaning: `Characters`, `LexicalMeaning`, `FieldMeaning`, `MatchingMeaning` |
| Pre-Depends: candidates, two-phase evaluation, its refinement | `Packages`, `Versionless`, `PreDepends`, `PreDependsRefinement`, `PreDependsCounterexample`, `PreDependsAdmission`; meaning: `PreDependsReasons`, `PreDependsMeaning`, `AdmissionMeaning` |
| dpkg versions, states and transitions | `DpkgVersion`, `DpkgState`, `DpkgTransition`; meaning: `VersionMeaning`, `StateMeaning`, `TransitionMeaning` |
| Deconfiguration allowances: builder and independent validator | `Reviews`, `DeconfigurationEffects`, `DeconfigurationBuilder`, `DeconfigurationApproval`, `DeconfigurationAgreement`; meaning: `DeconfigurationMeaning`, `DerivationMeaning`, `ApprovalMeaning` |
| Component succession ledger | `ComponentSuccession`; meaning: `PathMeaning`, `ComponentMeaning` |
| Native effect policy: netstring codec, content preimage, matching | `ByteOrder`, `Netstrings`, `EffectSettings`, `EffectRecords`, `EffectInputs`, `EffectPreimage`, `EffectMatching`; meaning: `EncodingMeaning`, `EnvironmentMeaning`, `InputMeaning` |
| Mapped arena | `Arena`, `ArenaRuns`, `Cytore`; meaning: `CytoreMeaning` |
| Hash | `Mixing`, `Lookup3`; meaning: `HashMeaning` |
| Records cut from a streamed index | `RecordExtraction`; meaning: `ExtractionMeaning` |

`dafny verify dfyconfig.toml` checks everything.

Loops and objects of the source are methods and classes here; each is proved against a function or
predicate, and the theorems are about those. Strings are byte strings. The version comparator is a
function that may answer, be unavailable or fail; digests, the canonical form of control fields and
the encoding of a review are functions given from outside. The operating system's answers (extending
a file, placing a mapping, the chunks of a stream) are inputs.

Code and specification share definitions: which statuses count as configured, what a relation asks,
which names are bound. The meaning modules say each of these again without the shared definitions,
naming every status, character, limit and field, and prove that the two accounts agree. Changing one
of these definitions alone contradicts a theorem, and the rules can be read in one place.

Three results are not what one would first write down:

- A ready Pre-Depends result does not by itself mean that the one-phase matcher succeeds. The second
  phase never asks the comparator about candidates whose phase excludes them, the one-phase matcher
  does. `ReadyWithoutAnAnswer` is an input, `OnePhaseAnswers` the exact condition.
- Objects of the arena lie in one piece over every run of allocations. The public `Reserve` breaks
  that: `AllocationCovered` says exactly when an allocation is in one piece, `ReservedSceneSplits` is
  a run where it is not. The size word wraps at 2^32 without a check; `SizeFollows` says what then.
- A derived allowance passes the validator exactly when its captured configuration version is empty
  or valid and its scripts got a digest; the derivation itself establishes neither.

## Model

| member | source | states |
|---|---|---|
| `BinaryRelationships.IsVersion` | Cydia/AptProviderBinaryRelationships.cpp:31-55 | Decides the version syntax of section 5.6.12 of the Debian Policy Manual: one epoch that fits a signed 32-bit integer, an upstream part starting with a digit, a nonempty revision behind the last hyphen |
| `BinaryRelationships.Parser.ParseItems` | Cydia/AptProviderBinaryRelationships.cpp:81-145 | The one pass over the text collects the groups and, as it goes, exactly the canonical text of those groups |
| `BinaryRelationships.ParseField` | Cydia/AptProviderBinaryRelationships.cpp:146-157 | Accepts or refuses with the code and offset of the parsing function, whose meaning `FieldExact` gives |
| `RelationshipGrammar.FieldExact` | Cydia/AptProviderBinaryRelationships.cpp:81-157 | A text is accepted with certain groups if and only if the grammar (terms, qualifiers, clauses, blanks, trailing comma) gives it that meaning and text, group, atom and canonical sizes are within limits |
| `RelationshipCanonical.CanonicalDenotes` | Cydia/AptProviderBinaryRelationships.cpp:84-140 | Every well-formed list of groups is what its own canonical text means in the grammar |
| `RelationshipCanonical.RoundTrip` | Cydia/AptProviderBinaryRelationships.cpp:81-157 | Parsing the canonical text of any accepted field, of any kind, gives that field again: same groups, atom count and canonical text |
| `RelationshipCanonical.ParsedIsValid` | Cydia/AptProviderBinaryRelationships.cpp:142-145 | Every parsed field satisfies the invariant later indexing relies on, such as no empty group |
| `RelationshipCanonical.ValidIsParsed` | Cydia/AptProviderBinaryRelationships.cpp:142-145 | Every field with that invariant is the parse of its canonical text |
| `FieldMeaning.FieldMeans` | Cydia/AptProviderBinaryRelationships.cpp:81-157 | A text parses to these groups exactly when it spells them and text, groups, atoms and canonical text are within 1 MiB, 4096, 16384 and 1 MiB; with the numbers in the statement |
| `FieldMeaning.TermMeans` | Cydia/AptProviderBinaryRelationships.cpp:84-127 | What one alternative may look like, character by character: name, qualifier and parenthesised relation |
| `FieldMeaning.OperatorsMean` | Cydia/AptProviderBinaryRelationships.cpp:56-64 | Which spelling stands for which relation, the old single-character ones included |
| `LexicalMeaning.NameMeans` | Cydia/AptProviderBinaryRelationships.cpp:16-21 | A name is one to 255 characters of the listed alphabet and starts with a lower-case letter or a digit |
| `LexicalMeaning.ConcreteMeans` | Cydia/AptProviderBinaryRelationships.cpp:22-30 | Which architectures are concrete, by alphabet, length and the wildcards left out |
| `LexicalMeaning.VersionMeans` | Cydia/AptProviderBinaryRelationships.cpp:31-55 | A version is a spelling of epoch, upstream and revision by the grammar of section 5.6.12 of the Debian Policy Manual; the alphabets are listed |
| `RelationshipMatching.ParsedPackageIsValid` | Cydia/AptProviderBinaryRelationships.cpp:158-178 | A package made by its parser has a valid name, version and architecture and a valid Provides field |
| `RelationshipMatching.Admit` | Cydia/AptProviderBinaryRelationships.cpp:256-269 | The checks before matching: kinds, uses and native qualifiers that are not supported and the input byte limit refuse with their code |
| `RelationshipMatching.Evaluate` | Cydia/AptProviderBinaryRelationships.cpp:251-303 | The nested loops with their step counter and byte budget compute the run over all tuples in lexicographic order |
| `RelationshipWitnesses.EvaluateExact` | Cydia/AptProviderBinaryRelationships.cpp:251-303 | Evaluation succeeds if and only if it was admitted, no tuple is refused and the totals fit the budgets; each group then reports every matching (alternative, candidate, direct or Provides) tuple once, in lexicographic order, and nothing else |
| `RelationshipWitnesses.FlagsExact` | Cydia/AptProviderBinaryRelationships.cpp:297-302 | The two flags are the disjunction and the conjunction over the groups of being satisfied by some tuple |
| `RelationshipWitnesses.ErrorsHaveCauses` | Cydia/AptProviderBinaryRelationships.cpp:184-246 | Every error code comes from an admission check, from a tuple the comparator or a native qualifier refuses, or from a limit |
| `MatchingMeaning.TupleMeans` | Cydia/AptProviderBinaryRelationships.cpp:185-245 | A tuple matches, or refuses with a code, exactly as written out case by case: names, self exclusion, Multi-Arch, qualifier, and each relation with its inequality |
| `MatchingMeaning.EvaluationMeans` | Cydia/AptProviderBinaryRelationships.cpp:251-303 | A successful evaluation reports, group by group, the tuples that agree and no other, each with the package and version it is about |
| `MatchingMeaning.ReportedRelations` | Cydia/AptProviderBinaryRelationships.cpp:193-207 | Every reported version compares with the version of its atom as the relation asks: below, at most, equal, at least or above zero |
| `MatchingMeaning.RelationsReported` | Cydia/AptProviderBinaryRelationships.cpp:193-245 | Conversely, a tuple that agrees in name and architecture is reported if and only if its versions compare that way |
| `MatchingMeaning.SuccessMeans` | Cydia/AptProviderBinaryRelationships.cpp:251-303 | Evaluation succeeds if and only if native architecture, kind, use, sizes and qualifiers are admitted, no tuple fails, and at most 65536 tuples and 32 MiB of reports are needed |
| `Versionless.VersionlessText` | Cydia/AptProviderPreDependsEvidence.cpp:47-58 | The text built from names and qualifiers is the canonical text of the field without its versions |
| `Versionless.Reparses` | Cydia/AptProviderPreDependsEvidence.cpp:47-58 | Parsing that text gives the same groups, alternatives, names and qualifiers with no version relation, so structural indices address the original field |
| `PreDepends.JudgeExact` | Cydia/AptProviderPreDependsEvidence.cpp:230-245 | A structural match is accepted exactly when its candidate is not queued, its phase allows it, and current and, for historical phases, configured version satisfy the atom |
| `PreDepends.JudgeMatches` | Cydia/AptProviderPreDependsEvidence.cpp:219-249 | The loop over the structural matches of a group files one judgement for each and marks the alternatives that were seen |
| `PreDepends.ListMissing` | Cydia/AptProviderPreDependsEvidence.cpp:250-253 | Every alternative without a structural match gets its own blocker, within the output budget |
| `PreDepends.ReserveSteps` | Cydia/AptProviderPreDependsEvidence.cpp:201-209 | Reserves one step per candidate and Provides declaration for every atom, or refuses when the product passes the limit |
| `PreDepends.Decide` | Cydia/AptProviderPreDependsEvidence.cpp:201-259 | The two-phase decision over admitted candidates: reserve, strip versions, match structurally, then judge group by group |
| `PreDependsReasons.JudgeMeans` | Cydia/AptProviderPreDependsEvidence.cpp:226-246 | What becomes of one structural match, status by status: each reason for refusing it and each condition for accepting it |
| `PreDependsRefinement.VerdictSplits` | Cydia/AptProviderPreDependsEvidence.cpp:211-245 | For Pre-Depends the one-phase verdict of every tuple is its structural verdict followed by the version comparison, with the same witness |
| `PreDependsRefinement.GroupExact` | Cydia/AptProviderPreDependsEvidence.cpp:219-257 | A group has a witness if and only if some structural match is acceptable; otherwise its blockers name every structural match with its reason and every alternative without one |
| `PreDependsRefinement.EveryAlternativeBlocked` | Cydia/AptProviderPreDependsEvidence.cpp:250-257 | In an unsatisfied group every alternative has a blocker |
| `PreDependsRefinement.ReadyExact` | Cydia/AptProviderPreDependsEvidence.cpp:215-258 | A group is satisfied if and only if some tuple matches structurally and passes phase and version conditions; the result is ready if and only if every group is |
| `PreDependsRefinement.OnePhaseAnswers` | Cydia/AptProviderPreDependsEvidence.cpp:211-214 | After a decision the one-phase matcher succeeds on the same candidates if and only if the full text fits its input budget and the comparator answers on every structural match, the ineligible ones included |
| `PreDependsRefinement.ReadyRefines` | Cydia/AptProviderPreDependsEvidence.cpp:211-258 | If the result is ready and the one-phase matcher answers, which it does exactly under that condition, it matches every group |
| `PreDependsRefinement.AgreesWhenSteady` | Cydia/AptProviderPreDependsEvidence.cpp:226-258 | When every installed candidate is installed or has pending triggers and none is queued, the witness lists agree group by group and readiness equals matching every group |
| `PreDependsMeaning.DecisionMeans` | Cydia/AptProviderPreDependsEvidence.cpp:201-258 | After a decision the witnesses of each group are the structural tuples that meet their phase, and an unsatisfied group lists every tuple with the reason its status calls for and every alternative without one |
| `PreDependsMeaning.WitnessPhases` | Cydia/AptProviderPreDependsEvidence.cpp:226-245 | A direct witness that is unpacked, half-configured or awaiting triggers has a configured version, which for a versioned atom is in the relation; a provider is installed or has pending triggers; nothing queued is a witness |
| `PreDependsCounterexample.ReadyWithoutAnAnswer` | Cydia/AptProviderPreDependsEvidence.cpp:226-231 | A concrete input that is ready although the one-phase matcher fails: the comparator fails on a candidate the second phase never asks about |
| `PreDependsAdmission.CheckArchitectures` | Cydia/AptProviderPreDependsEvidence.cpp:124-130 | The registered architectures are concrete, distinct, at most 256 and start with the native one |
| `PreDependsAdmission.Admit` | Cydia/AptProviderPreDependsEvidence.cpp:110-200 | The candidates are those of the records in key order: reference rows and replaced instances are skipped, contradictory or unreadable records refuse with their code, and all retained metadata must have been used |
| `PreDependsAdmission.AdmissionValid` | Cydia/AptProviderPreDependsEvidence.cpp:171-198 | Whatever is admitted meets every assumption the evaluation makes about its candidates |
| `PreDependsAdmission.CandidateIsRecord` | Cydia/AptProviderPreDependsEvidence.cpp:157-198 | A candidate has the name, version and architecture of its record, its status, and is marked queued exactly when its generation is |
| `PreDependsAdmission.RemainingStandsBeside` | Cydia/AptProviderPreDependsEvidence.cpp:177-194 | A candidate that still bears the incoming name has another architecture and is either not installed or coinstallable on both sides |
| `PreDependsAdmission.OneGivesWay` | Cydia/AptProviderPreDependsEvidence.cpp:143-194 | Never do two installed instances give way to the incoming package |
| `PreDependsAdmission.QueuedStays` | Cydia/AptProviderPreDependsEvidence.cpp:132-198 | Every generation queued for deconfiguration is among the candidates and marked |
| `PreDependsAdmission.ReadyIsSatisfied` | Cydia/AptProviderPreDependsEvidence.cpp:110-258 | When the answer over an installed state is ready, every group is satisfied by an admitted candidate or the archive itself, and the one-phase matcher over them matches every group whenever it answers |
| `PreDependsAdmission.Evaluate` | Cydia/AptProviderPreDependsEvidence.cpp:110-259 | Admission followed by the decision, with no assumption on the installed state |
| `AdmissionMeaning.AdmissionMeans` | Cydia/AptProviderPreDependsEvidence.cpp:110-200 | Admission succeeds if and only if the setting belongs together and every row reads as written out, and the candidates are then exactly the rows that stay, each with its statuses and queue mark |
| `DpkgVersion.SameVersionPart` | Cydia/AptProviderDpkgState.cpp:29-46 | Holds if and only if the alternating decompositions into text and numbers without leading zeroes are equal |
| `DpkgVersion.PolicyZero` | Cydia/AptProviderDpkgState.cpp:29-46 | Equal decompositions are exactly those the comparison algorithm of section 5.6.12 of the Debian Policy Manual finds no difference between |
| `DpkgVersion.ParseEpoch` | Cydia/AptProviderDpkgState.cpp:49-61 | Accepts an optional sign and digits before the colon, read exactly up to the largest signed 32-bit integer; a minus sign only before zero |
| `DpkgVersion.SplitRebuilds` | Cydia/AptProviderDpkgState.cpp:47-70 | Upstream and revision, joined by a hyphen when there is a revision, are the version behind its epoch; the revision holds no hyphen |
| `DpkgVersion.SameDpkgVersion` | Cydia/AptProviderDpkgState.cpp:71-76 | Two versions are the same if and only if they are one text or split into equal epochs and equivalent parts |
| `DpkgVersion.SameVersionEquivalence` | Cydia/AptProviderDpkgState.cpp:71-76 | Reflexive exactly on version texts, symmetric and transitive |
| `DpkgVersion.SameVersionIsUnordered` | Cydia/AptProviderDpkgState.cpp:47-76 | Versions that split are the same if and only if their epochs are equal and neither upstream nor revision is ordered apart |
| `DpkgVersion.AbsentRevisionIsZero` | Cydia/AptProviderDpkgState.cpp:65-76 | A missing revision equals any revision of zeroes |
| `VersionMeaning.SplitMeans` | Cydia/AptProviderDpkgState.cpp:47-70 | A version splits into an epoch, upstream and revision if and only if it is spelled with them: optional sign, digits, colon, upstream, last hyphen, revision |
| `DpkgState.CollectPending` | Cydia/AptProviderDpkgState.cpp:194-203 | Collects the instances with pending triggers, and fails exactly when one of them is not settled |
| `DpkgState.SelectTargets` | Cydia/AptProviderDpkgState.cpp:204-211 | The targets are accepted exactly when each is pending, none is named twice and none is missing |
| `DpkgState.ResolveWaiters` | Cydia/AptProviderDpkgState.cpp:217-231 | The waiters of a record are accepted exactly when they resolve, one by one, to distinct pending recipients |
| `DpkgState.TriggerResult` | Cydia/AptProviderDpkgState.cpp:192-238 | A batch is processed if and only if it drains everything; the result clears exactly the trigger state, and every refusal names its cause |
| `DpkgState.DrainsCompletely` | Cydia/AptProviderDpkgState.cpp:110-147 | From a valid state, draining gives a valid state with no pending or awaited trigger and no trigger status, the same keys, and all else of every record unchanged |
| `DpkgState.SecondDrainRefused` | Cydia/AptProviderDpkgState.cpp:204-211 | After a drain every further batch is refused, and with which fault |
| `StateMeaning.StateMeans` | Cydia/AptProviderDpkgState.cpp:110-147 | A state is valid if and only if its names, architectures, rows and trigger lists are, with alphabets, lengths and statuses written out |
| `StateMeaning.WaiterMeans` | Cydia/AptProviderDpkgState.cpp:105-109 | An awaited package is a name, or a name and an exact architecture |
| `StateMeaning.DrainedMeans` | Cydia/AptProviderDpkgState.cpp:232-238 | What a drain leaves of each row, status by status |
| `StateMeaning.DrainableMeans` | Cydia/AptProviderDpkgState.cpp:192-231 | A batch can be drained if and only if the pending rows are ready, the targets are their packages and every waiter is answered |
| `DpkgTransition.SelectActions` | Cydia/AptProviderDpkgState.cpp:457-460 | The actions of a batch are found exactly when its identifiers are distinct and each names one reviewed action of the batch's kind |
| `DpkgTransition.FindOld` | Cydia/AptProviderDpkgState.cpp:464-484 | The record an action starts from: its own key or, for an unpack without one, the single installed instance of the name when one of the two architectures is all; several are refused |
| `DpkgTransition.VerifyAction` | Cydia/AptProviderDpkgState.cpp:461-525 | One action is accepted exactly when the record before and the record after are those its kind allows |
| `DpkgTransition.VerifyRest` | Cydia/AptProviderDpkgState.cpp:532-545 | Every record outside the actions is unchanged, up to rows that only record a reference |
| `DpkgTransition.VerifyTransition` | Cydia/AptProviderDpkgState.cpp:415-548 | A before and after state are accepted if and only if the selected actions explain every difference, each record claimed by one action at most |
| `DpkgTransition.KeyNames` | Cydia/AptProviderDpkgState.cpp:17-17 | The key of a valid record determines its name and architecture |
| `DpkgTransition.RunFrame` | Cydia/AptProviderDpkgState.cpp:415-548 | Over any run of accepted batches a name no action targets keeps its rows with version, selection, reinstall flag and Multi-Arch, reference rows aside; without trigger batches it keeps the whole records |
| `DpkgTransition.ReplacedIsAbsent` | Cydia/AptProviderDpkgState.cpp:474-484 | An accepted unpack that starts from an instance of another architecture leaves that instance absent |
| `TransitionMeaning.DoneMeans` | Cydia/AptProviderDpkgState.cpp:485-525 | An action is permitted if and only if its row before and after are as written out: unpacked in the exact version, installed from unpacked or half-configured, removed to configuration files or nothing, purged to nothing |
| `TransitionMeaning.AcceptedMeans` | Cydia/AptProviderDpkgState.cpp:415-548 | A transition is accepted if and only if the batch is well-formed, every selected action is done and everything else stayed |
| `TransitionMeaning.ActionsDone` | Cydia/AptProviderDpkgState.cpp:461-525 | In an accepted transition each selected action has the row its kind promises under its own key |
| `TransitionMeaning.TriggersMean` | Cydia/AptProviderDpkgState.cpp:192-238 | A trigger batch is explained if and only if the drain was possible and the rows after are the drained ones |
| `Reviews.CheckPackage` | Cydia/AptProviderDeconfigurationApproval.cpp:22-25 | Accepts exactly valid name, version and concrete architecture |
| `Reviews.GenerationInjective` | Cydia/AptProviderDeconfigurationApproval.cpp:17-18 | Valid instances with the same generation text are the same instance |
| `DeconfigurationBuilder.RecordsCover` | Cydia/AptProviderDeconfigurationEffects.cpp:216-224 | Equally many distinct control records and archives means every archive has its record, so the later lookup is safe |
| `DeconfigurationBuilder.UnpackHasRecord` | Cydia/AptProviderDeconfigurationEffects.cpp:202-224 | The record of an unpacked archive describes exactly the package its action names |
| `DeconfigurationBuilder.Builder.LoadRows` | Cydia/AptProviderDeconfigurationEffects.cpp:228-238 | Keeps the installed and configured packages in key order with the instances of each name counted, and denies exactly when some row is not admissible |
| `DeconfigurationBuilder.Builder.Live` | Cydia/AptProviderDeconfigurationEffects.cpp:283-296 | The candidates of an unpack are exactly the configured packages no earlier action has unpacked over, removed, purged or replaced from another architecture |
| `DeconfigurationBuilder.Builder.Add` | Cydia/AptProviderDeconfigurationEffects.cpp:239-277 | A cause is filed at the end of its target's generation, which opens with the captured state, and is denied exactly when the target is no longer its initial configured generation |
| `DeconfigurationBuilder.Builder.AddSiblings` | Cydia/AptProviderDeconfigurationEffects.cpp:309-322 | Exactly the coinstalled architectures of the incoming package left at another version become causes; siblings that are not coinstallable or cannot be compared deny |
| `DeconfigurationBuilder.Builder.CheckFuture` | Cydia/AptProviderDeconfigurationEffects.cpp:328-371 | Passes exactly when the unpack neither breaks nor is left beside another version of any generation the review has configured before it |
| `DeconfigurationBuilder.Builder.FindEndpoint` | Cydia/AptProviderDeconfigurationEffects.cpp:109-144 | Finds the first configure, remove or purge of the slot after the last cause, which must meet the generation unpacked before it and may only be followed by the purge that belongs to a removal; denies exactly when there is none |
| `DeconfigurationBuilder.Builder.Derive` | Cydia/AptProviderDeconfigurationEffects.cpp:185-375 | What it grants holds one allowance per affected generation with exactly its causes in review order and its endpoint after the last one; it denies only when no such result exists, and otherwise only runs out of budget |
| `DeconfigurationMeaning.AllowancesMean` | Cydia/AptProviderDeconfigurationEffects.cpp:228-323 | Whenever a derivation is granted, a generation has an allowance if and only if an unpack takes the configuration of the running row that carries it, by a Breaks match or a sibling left at another version, while no earlier action displaced it; the causes are exactly those |
| `DeconfigurationMeaning.OnlyRunning` | Cydia/AptProviderDeconfigurationEffects.cpp:239-262 | A generation with an allowance is installed, has pending triggers or awaits triggers, in the state and on disk, needs no reinstallation, and the allowance records its row; rows in any other status never get one |
| `DeconfigurationMeaning.LiveMeans` | Cydia/AptProviderDeconfigurationEffects.cpp:283-296 | A candidate is still live exactly when no earlier action unpacked, removed or purged its slot or replaced it across an all and native change |
| `DerivationMeaning.InputMeans` | Cydia/AptProviderDeconfigurationEffects.cpp:185-250 | The input is admitted if and only if sizes, identities, archives, actions, index records and installed rows are in order, with every field name and limit written out |
| `DerivationMeaning.UnpackMeans` | Cydia/AptProviderDeconfigurationEffects.cpp:279-323 | An unpack is admitted if and only if its Breaks field can be evaluated, providers match alone, siblings are coinstallable and comparable, and what it affects can lose its configuration |
| `DerivationMeaning.RisesMeans` | Cydia/AptProviderDeconfigurationEffects.cpp:330-354 | What the run itself has configured before an action, slot by slot: the last action that decides about the slot configured it |
| `DerivationMeaning.FutureMeans` | Cydia/AptProviderDeconfigurationEffects.cpp:325-371 | An unpack leaves the generations the run has configured alone if and only if no Breaks tuple agrees with one and no sibling among them differs in version |
| `DerivationMeaning.EndingMeans` | Cydia/AptProviderDeconfigurationEffects.cpp:109-144 | What ends a deconfiguration: the first configure, remove or purge of the slot behind the cause, on the generation last unpacked there, and alone but for the purge after a removal |
| `DerivationMeaning.DerivationMeans` | Cydia/AptProviderDeconfigurationEffects.cpp:185-375 | A derivation is possible if and only if the input is in order, every unpack is admitted and leaves the future alone, every archive is unpacked, and whatever loses its configuration has its end |
| `DerivationMeaning.EndpointsMean` | Cydia/AptProviderDeconfigurationEffects.cpp:109-144 | The endpoint of each allowance names that first ending action behind the last unpack that affects it |
| `DeconfigurationApproval.ReviewShape` | Cydia/AptProviderDeconfigurationApproval.cpp:40-65 | Accepts exactly reviews with distinct archives, positive distinct identifiers, no action repeated on a generation and every archive unpacked once, and returns every action with its position and preceding unpack |
| `DeconfigurationApproval.ShapeCauses` | Cydia/AptProviderDeconfigurationApproval.cpp:84-107 | Accepts exactly causes that never go back in the review, are distinct, name an unpack with its archive, and carry a canonical Breaks text with indices in range or describe a sibling of the target |
| `DeconfigurationApproval.ShapeEndpoint` | Cydia/AptProviderDeconfigurationApproval.cpp:108-117 | The endpoint lies after the last cause, names its action, and records the right preceding unpack and generation |
| `DeconfigurationApproval.Shape` | Cydia/AptProviderDeconfigurationApproval.cpp:66-120 | Accepts exactly the sets whose review and every allowance are shaped and whose relation bytes stay within the limit |
| `ApprovalMeaning.ReviewMeans` | Cydia/AptProviderDeconfigurationApproval.cpp:26-65 | A review is shaped if and only if it is bounded, its archives and actions are valid, and no identifier, generation of one kind or unpacked archive occurs twice |
| `ApprovalMeaning.ApprovalMeans` | Cydia/AptProviderDeconfigurationApproval.cpp:26-120 | An approval is shaped if and only if its limits hold and each allowance stands by the actions themselves: running statuses, causes in the order of their unpacks, endpoint behind the last |
| `DeconfigurationAgreement.EmissionsSound` | Cydia/AptProviderDeconfigurationEffects.cpp:279-323 | Every cause the builder files points at a real unpack, a real relation place and its own target, and no cause is filed twice |
| `DeconfigurationAgreement.DerivedCauses` | Cydia/AptProviderDeconfigurationEffects.cpp:239-323 | The causes of a derived allowance pass every cause check of the validator, in order |
| `DeconfigurationAgreement.BuilderSatisfiesValidator` | Cydia/AptProviderDeconfigurationApproval.cpp:66-120 | An allowance the builder derives passes all per-allowance checks of the validator if and only if its captured configuration version is empty or valid and its scripts got a digest |
| `ComponentSuccession.BeginSound` | Cydia/AptProviderComponentSuccession.cpp:50-96 | The ledger that begins holds the initial files and satisfies the whole-run invariant |
| `ComponentSuccession.Succession.Begin` | Cydia/AptProviderComponentSuccession.cpp:50-96 | Succeeds exactly once, for an accepted review with valid identities, distinct initial files and admissible archives; a second call ends the ledger |
| `ComponentSuccession.LoadArchives` | Cydia/AptProviderComponentSuccession.cpp:69-92 | The replacements are the installed payload files of the unpacked archives, each path approved once, or the archives are refused |
| `ComponentSuccession.Succession.Observe` | Cydia/AptProviderComponentSuccession.cpp:97-127 | Takes over the observed files exactly when newly completed approved unpacks explain every change, and otherwise ends the ledger |
| `ComponentSuccession.ObservedSound` | Cydia/AptProviderComponentSuccession.cpp:97-127 | Each observation keeps the invariant: recorded paths are the initial ones and those of completed unpacks, each with its approved payload once replaced and its initial record before |
| `ComponentSuccession.PlaySound` | Cydia/AptProviderComponentSuccession.cpp:97-127 | The invariant holds after any run of observations, and completed sets only grow |
| `ComponentSuccession.InactivityAbsorbs` | Cydia/AptProviderComponentSuccession.cpp:97-103 | An inactive ledger never changes again |
| `ComponentSuccession.BatchingIrrelevant` | Cydia/AptProviderComponentSuccession.cpp:108-127 | Two runs that end active with the same completed unpacks end with the same paths and payloads, however observations were batched |
| `ComponentSuccession.ParentsFrozen` | Cydia/AptProviderComponentSuccession.cpp:104-124 | While active, no recorded path disappears or changes its parents identity |
| `ComponentSuccession.Succession.AuthorizeOrigin` | Cydia/AptProviderComponentSuccession.cpp:128-139 | Hands out exactly the initial files, for the review and identities the ledger began with and no other |
| `ComponentSuccession.Succession.AuthorizeComponents` | Cydia/AptProviderComponentSuccession.cpp:140-152 | Accepts exactly distinct files that equal the current ledger record by record |
| `ComponentSuccession.ClosedSetHolds` | Cydia/AptProviderComponentSuccession.cpp:172-185 | A set with the start that is closed under edges holds everything a walk reaches, cycles included |
| `ComponentSuccession.Succession.CheckClosure` | Cydia/AptProviderComponentSuccession.cpp:172-188 | The worklist accepts exactly when the given nodes are those reachable from the executable over Component edges and no platform edge names a recorded path |
| `ComponentSuccession.Succession.AuthorizeLaunch` | Cydia/AptProviderComponentSuccession.cpp:153-189 | Accepts exactly a bound closure of current, distinct nodes whose executable may run and whose node set is the reachable one |
| `PathMeaning.PathMeans` | Cydia/AptProviderComponentSuccession.cpp:11-23 | A path is absolute if and only if it is the root or separators and names in turn, without control characters, `.` and `..` |
| `ComponentMeaning.ExecutableMeans` | Cydia/AptProviderComponentSuccession.cpp:170-171 | A payload is executable exactly when one of its three permission digits is odd |
| `ComponentMeaning.SoleMeans` | Cydia/AptProviderComponentSuccession.cpp:24-32 | A component is valid exactly when it is a root-owned regular file of at most 4 GiB under one name, not writable by group or others |
| `ComponentMeaning.BeginningMeans` | Cydia/AptProviderComponentSuccession.cpp:50-96 | A ledger can begin exactly with valid files told apart, archives unpacked once each, no identifier or path shared between archives, and at most 512 paths in all |
| `ComponentMeaning.ObservationMeans` | Cydia/AptProviderComponentSuccession.cpp:97-127 | An observation is accepted exactly when it shows each recorded and each succeeded path once, unchanged or as the approved successor, with the same parents |
| `ComponentMeaning.LaunchMeans` | Cydia/AptProviderComponentSuccession.cpp:153-190 | A launch is authorized exactly when the nodes are the recorded files the executable loads, directly or not, and no others, the executable may be run and no known component passes for the platform |
| `Netstrings.Writer.Field` | Cydia/AptProviderNativeEffectPolicy.cpp:74-84 | The bytes are the encoding of all fields written so far, or nothing once that encoding is over the limit |
| `Netstrings.NetHead` | Cydia/AptProviderNativeEffectPolicy.cpp:77-83 | No netstring is the beginning of another, whatever follows |
| `Netstrings.NetAllInjective` | Cydia/AptProviderNativeEffectPolicy.cpp:77-83 | A byte string encodes at most one list of fields |
| `Netstrings.Fields` | Cydia/AptProviderNativeEffectPolicy.cpp:85-102 | Reads exactly the field lists that are encoded within the limits, canonical length digits included |
| `Netstrings.FieldsExact` | Cydia/AptProviderNativeEffectPolicy.cpp:85-102 | Reading yields a list if and only if the bytes are its encoding and both limits hold |
| `Netstrings.WrittenIsRead` | Cydia/AptProviderNativeEffectPolicy.cpp:74-102 | Writing then reading gives the fields back, and everything readable re-encodes to itself |
| `Netstrings.NumberExact` | Cydia/AptProviderNativeEffectPolicy.cpp:103-113 | A text reads as a number if and only if it is the number printed and within the maximum |
| `EncodingMeaning.FrameMeans` | Cydia/AptProviderNativeEffectPolicy.cpp:74-84 | Each text is framed by its length in decimal, a colon and a comma |
| `EncodingMeaning.OrderMeans` | Cydia/AptProviderNativeEffectPolicy.cpp:274-274 | Byte strings are ordered by the first place where they differ; a beginning comes before the whole |
| `EffectSettings.EncodeSettings` | Cydia/AptProviderNativeEffectPolicy.cpp:123-160 | Encodes exactly valid settings whose encoding fits a record |
| `EffectSettings.EncodedInjective` | Cydia/AptProviderNativeEffectPolicy.cpp:123-160 | Different settings have different encodings |
| `EffectSettings.DecodeSettings` | Cydia/AptProviderNativeEffectPolicy.cpp:161-202 | Decoding yields settings if and only if they encode to these very bytes |
| `EffectSettings.DecodedExact` | Cydia/AptProviderNativeEffectPolicy.cpp:161-202 | Decoding and encoding are inverse, and nothing but encodings is accepted |
| `EncodingMeaning.SettingsMean` | Cydia/AptProviderNativeEffectPolicy.cpp:123-160 | Settings are encoded if and only if they are allowed, as their twenty-one fields in order in at most 65536 bytes |
| `EffectRecords.RecordInjective` | Cydia/AptProviderNativeEffectPolicy.cpp:203-223 | Different records have different encodings |
| `EffectRecords.OrderIgnored` | Cydia/AptProviderNativeEffectPolicy.cpp:263-280 | The encoding of a list of records ignores their order |
| `EffectRecords.EncodingDetermines` | Cydia/AptProviderNativeEffectPolicy.cpp:263-280 | Equal encodings come from the same records up to order |
| `EffectRecords.DecodeRecords` | Cydia/AptProviderNativeEffectPolicy.cpp:281-304 | Every accepted byte string re-encodes to itself, and decoding an encoded list gives a permutation of it |
| `EncodingMeaning.RecordMeans` | Cydia/AptProviderNativeEffectPolicy.cpp:203-223 | A record is encoded if and only if its fields are valid, as nine fields between the two tags in at most 65536 bytes |
| `EncodingMeaning.RecordsMean` | Cydia/AptProviderNativeEffectPolicy.cpp:263-280 | A list is encoded if and only if it holds at most 64 records within the size limits, as the ascending encodings behind the list tag |
| `EffectPreimage.CheckShape` | Cydia/AptProviderNativeEffectPolicy.cpp:224-252 | Accepts exactly supported, well-shaped inputs whose texts and items are within the budget, charged step by step |
| `EffectPreimage.CollectNodes` | Cydia/AptProviderNativeEffectPolicy.cpp:313-313 | Builds the map of nodes, and fails exactly when a path repeats |
| `EffectPreimage.KeptKeys` | Cydia/AptProviderNativeEffectPolicy.cpp:329-331 | Skipping the other nodes in key order visits exactly the configuration paths in their own order |
| `EffectPreimage.WriteConfiguration` | Cydia/AptProviderNativeEffectPolicy.cpp:329-339 | Writes the rows of the configuration nodes in key order with sorted members, and refuses exactly repeated members or an overlong result |
| `EffectPreimage.EncodeInputs` | Cydia/AptProviderNativeEffectPolicy.cpp:305-353 | Either the profile is unsupported, or the input is refused, or the result is the preimage of the accepted input |
| `EffectInputs.ConfigurationFaithful` | Cydia/AptProviderNativeEffectPolicy.cpp:329-339 | Two configurations have the same rows if and only if they are the same nodes with the same members as sets |
| `EffectInputs.ComponentsFaithful` | Cydia/AptProviderNativeEffectPolicy.cpp:340-340 | Two component lists have the same rows if and only if they hold the same components |
| `EffectInputs.EnvironmentFaithful` | Cydia/AptProviderNativeEffectPolicy.cpp:318-344 | Two environments have the same rows if and only if they agree on presence and value of every required name |
| `EffectInputs.PreimageFaithful` | Cydia/AptProviderNativeEffectPolicy.cpp:305-353 | Two accepted inputs have the same bytes if and only if they agree on scalars, option prefix, configuration, components and required environment; order and excluded nodes never matter |
| `EnvironmentMeaning.BoundNames` | Cydia/AptProviderNativeEffectPolicy.cpp:321-328 | The bound names are the thirty-three listed ones and every name beginning with `LC_` or `DPKG_` |
| `EnvironmentMeaning.BytesBindVariables` | Cydia/AptProviderNativeEffectPolicy.cpp:321-344 | Inputs with equal bytes have equal values, or equal absences, of every bound name |
| `EnvironmentMeaning.OthersAreFree` | Cydia/AptProviderNativeEffectPolicy.cpp:321-344 | Inputs that differ only in other variables have equal bytes |
| `EnvironmentMeaning.EntriesFaithful` | Cydia/AptProviderNativeEffectPolicy.cpp:318-320 | The entries of an environment determine its variables: a name holds no equals sign, so the first one separates name and value |
| `InputMeaning.AcceptedMeans` | Cydia/AptProviderNativeEffectPolicy.cpp:224-320 | Inputs are accepted if and only if shapes, limits, distinct paths and roles are as written out |
| `InputMeaning.ConfigurationMeans` | Cydia/AptProviderNativeEffectPolicy.cpp:330-340 | The configuration is written one node a row, in ascending order of the paths, each row with path, kind, presence, size, digest and sorted members |
| `InputMeaning.PreimageMeans` | Cydia/AptProviderNativeEffectPolicy.cpp:305-353 | The preimage is the thirteen fields in order for accepted inputs of the one known profile, within 1 MiB |
| `EffectMatching.MatchRecord` | Cydia/AptProviderNativeEffectPolicy.cpp:387-412 | The answer is the one the record list as a whole calls for: missing, unsupported, mismatch, ambiguous, invalid or matched |
| `EffectMatching.MatchedExactly` | Cydia/AptProviderNativeEffectPolicy.cpp:394-411 | There is a match if and only if one usable record fits and no other does, and then it carries that record's settings and digests |
| `InputMeaning.UnmatchedMeans` | Cydia/AptProviderNativeEffectPolicy.cpp:394-404 | Without an agreeing record the answer is unsupported, missing or mismatched, and when each |
| `InputMeaning.SingleMeans` | Cydia/AptProviderNativeEffectPolicy.cpp:405-411 | With one agreeing record the answer is that record, unless it leaves options unmodelled or has no digest |
| `InputMeaning.AmbiguousMeans` | Cydia/AptProviderNativeEffectPolicy.cpp:400-401 | Two agreeing records make the answer ambiguous |
| `InputMeaning.RefusalsMean` | Cydia/AptProviderNativeEffectPolicy.cpp:388-393 | Records that cannot be encoded, unknown profiles and a missing digest decide by themselves |
| `EffectMatching.AnswerIgnoresOrder` | Cydia/AptProviderNativeEffectPolicy.cpp:387-412 | There is one answer, and rearranging the records does not change it |
| `EffectMatching.IdentityBindsContent` | Cydia/AptProviderNativeEffectPolicy.cpp:354-361 | With a collision-free digest two inputs share their identity if and only if they have the same content |
| `EffectMatching.EncodeLaunch` | Cydia/AptProviderNativeEffectPolicy.cpp:362-377 | The launch bytes, for accepted inputs whose arguments start with the option prefix |
| `EffectMatching.LaunchFaithful` | Cydia/AptProviderNativeEffectPolicy.cpp:362-377 | Two launches have the same bytes if and only if content, the whole environment and the arguments agree |
| `InputMeaning.LaunchMeans` | Cydia/AptProviderNativeEffectPolicy.cpp:362-377 | The launch bytes are the six fields in order, for arguments that begin with the option prefix and fit the limits |
| `Cytore.File.Map` | Cytore.hpp:131-142 | Maps the rest of the file in one piece and appends its blocks in order |
| `Cytore.File.Truncate` | Cytore.hpp:153-162 | Rounds up to whole blocks, with wrap-around, and extends and maps, or changes nothing when the file cannot be extended |
| `Cytore.File.Open` | Cytore.hpp:189-223 | Takes over a file with the right mark in one mapping, or leaves a new one with its header written |
| `Cytore.File.Reserve` | Cytore.hpp:225-238 | Keeps the block table exact: the last block is mapped again with what is new, and a failed extension restores everything |
| `Cytore.File.Get` | Cytore.hpp:240-243 | The address returned denotes the file position that was asked for; the null offset has no address |
| `Cytore.File.New` | Cytore.hpp:254-268 | Grants the old size as offset and advances the size word by the rounded request, modulo its width; a refusal leaves the file unchanged |
| `CytoreMeaning.RoundingMeans` | Cytore.hpp:90-94 | Requests are rounded up to multiples of eight and capacities to multiples of 131072 |
| `CytoreMeaning.CreatedMeans` | Cytore.hpp:196-209 | A new file holds the mark, version zero, the size of its fixed part and zeros, byte by byte, up to whole blocks |
| `CytoreMeaning.OpenedMeans` | Cytore.hpp:199-215 | A file long enough is taken over exactly when it bears mark and version; its bytes stay |
| `CytoreMeaning.GrantMeans` | Cytore.hpp:254-269 | An allocation answers with the stored size and moves it on by the rounded request |
| `Arena.WhereKept` | Cytore.hpp:131-142 | A further mapping leaves every address that denoted a byte denoting the same byte |
| `Arena.CoveredReads` | Cytore.hpp:240-243 | When the mapping behind an object's address holds the object, its bytes follow that address in order |
| `Arena.CoveredGrown` | Cytore.hpp:225-238 | Objects in one piece stay in one piece when the block they start in is mapped again |
| `ArenaRuns.AllocationCovered` | Cytore.hpp:225-268 | For every state, an allocation lies in one mapping if and only if it fits the mapping of its first block or, when the file grows, starts in the last block or later |
| `ArenaRuns.ReservingSplits` | Cytore.hpp:225-268 | Whenever more was reserved than the blocks in use and an allocation then grows the file, the object runs past the mapping its address points into |
| `ArenaRuns.ReservedSceneSplits` | Cytore.hpp:225-268 | A concrete run in which that happens: three blocks reserved in a new file, then three blocks allocated |
| `ArenaRuns.SizeFollows` | Cytore.hpp:258-265 | The recorded size is right if and only if it stays below 2^32; otherwise the next offset falls below objects already granted |
| `ArenaRuns.RefusedChangesNothing` | Cytore.hpp:259-262 | A refused allocation leaves file, mappings and size as they were |
| `ArenaRuns.StepKeeps` | Cytore.hpp:225-268 | Each allocation, granted or refused, and each store into an object keeps the arena invariant and the layout of all objects |
| `ArenaRuns.RunKeeps` | Cytore.hpp:225-268 | Over any run of allocations and stores, objects are disjoint, above header and base, inside the recorded size and in one piece, and everything beyond the size is blank |
| `ArenaRuns.RunReads` | Cytore.hpp:240-268 | At the end of any run, every byte of every object obtained is found behind that object's address |
| `ArenaRuns.RunKeepsAddress` | Cytore.hpp:131-162 | An address obtained before any growth denotes the same file byte for the rest of the run |
| `ArenaRuns.RunKeepsByte` | Cytore.hpp:153-162 | Bytes outside the size word change only by stores to them |
| `ArenaRuns.GrantIsBlank` | Cytore.hpp:254-268 | An object is all zero when it is granted |
| `ArenaRuns.CreatedSound` | Cytore.hpp:189-208 | A new file satisfies the arena invariant, with nothing allocated beyond header and base |
| `ArenaRuns.ReopeningKeeps` | Cytore.hpp:189-223 | Opening the file of a sound arena again gives a sound arena with the same bytes and the same objects in one piece |
| `Mixing.MixReversible` | lookup3.c:114-122 | The mix is a bijection of states, with its inverse given |
| `Mixing.FinalReversible` | lookup3.c:149-158 | The final mix is a bijection of states, with its inverse given |
| `Mixing.HashReversible` | lookup3.c:282-447 | For every key, of any length, the internal state after hashing determines the state before |
| `Mixing.OneBlockDiffers` | lookup3.c:407-447 | Keys of equal length that differ inside one 12-byte block only never reach the same internal state, however many blocks follow |
| `Mixing.WrappedFourfold` | lookup3.c:182-182 | A word count cut to 32 bits and shifted by two is the byte count cut to 32 bits |
| `Mixing.WrappedTurns` | lookup3.c:288-288 | Cutting a length to 32 bits forgets exactly multiples of 2^32 |
| `Lookup3.ByWords` | lookup3.c:291-356 | Reading words and masking the last, or reading its bytes with care, reaches the state of the bytes, in either byte order |
| `Lookup3.LastWords` | lookup3.c:318-333 | The masked reads of the last block add the key bytes only, whatever lies behind the key |
| `Lookup3.ByHalfWords` | lookup3.c:357-403 | Reading half words reaches the state of the bytes |
| `Lookup3.ByBytes` | lookup3.c:404-442 | Reading bytes reaches the state of the bytes, in either byte order |
| `Lookup3.HashLittle` | lookup3.c:282-447 | For every key, length, seed, alignment and machine the result is the one value of the key's bytes |
| `Lookup3.HashLittle2` | lookup3.c:462-634 | The two results are those of the same state, so a zero second seed gives the one-result hash |
| `Lookup3.HashWord` | lookup3.c:173-207 | The result is that of hashing the words' bytes in either byte order, the length counted in bytes |
| `Lookup3.HashWord2` | lookup3.c:217-252 | Likewise for two seeds and two results |
| `Lookup3.HashBig` | lookup3.c:644-764 | Word and byte paths give the one value of the key's bytes read in big-endian order |
| `HashMeaning.RotationMeans` | lookup3.c:68-68 | Rotation by each of the nine amounts, with its two shifts |
| `HashMeaning.MixMeans` | lookup3.c:114-123 | The six lines of the mix with their rotations |
| `HashMeaning.FinalMeans` | lookup3.c:149-158 | The seven lines of the final mix with their rotations |
| `HashMeaning.EmptyKnown` | lookup3.c:969-977 | The published values for the empty key and three pairs of seeds |
| `HashMeaning.PrimaryKnown` | lookup3.c:978-979 | The published values for the thirty-byte key without seeds |
| `HashMeaning.SecondSeedKnown` | lookup3.c:980-981 | The published values for that key with the second seed one |
| `HashMeaning.FirstSeedKnown` | lookup3.c:982-987 | The published values for that key with the first seed one |
| `RecordExtraction.Deliver` | Cydia/AptProviderArchiveEvidence.cpp:363-369 | Each range still ahead gets exactly its part of the chunk; skipped ranges lose nothing |
| `RecordExtraction.Extraction.Consume` | Cydia/AptProviderArchiveEvidence.cpp:361-371 | After any chunk every range holds exactly what the stream so far has of it, or the index is too large |
| `RecordExtraction.TakeRecord` | Cydia/AptProviderArchiveEvidence.cpp:372-389 | The checks on the window accept exactly records that are whole paragraphs of the stream, and return the record |
| `RecordExtraction.ReadRecords` | Cydia/AptProviderArchiveEvidence.cpp:357-392 | The outcome is a function of the stream and the ranges, not of how the stream was cut into chunks |
| `RecordExtraction.OutcomeExact` | Cydia/AptProviderArchiveEvidence.cpp:372-391 | Records come out if and only if every one is a whole paragraph, and each is its own slice of the stream |
| `ExtractionMeaning.ParagraphMeans` | Cydia/AptProviderArchiveEvidence.cpp:372-389 | A record is a whole paragraph exactly when the characters around its two ends are those of empty lines, of either kind, or the ends of the stream |
| `ExtractionMeaning.ReadingMeans` | Cydia/AptProviderArchiveEvidence.cpp:357-392 | Reading gives records exactly when the stream has at most 512 MiB and every located stretch is whole; each stretch is then among them |
| `ExtractionMeaning.ReadingOrdered` | Cydia/AptProviderArchiveEvidence.cpp:359-359 | The records come out in the order of their places, those at the very beginning aside |
| `RecordExtraction.Decimal` | Cydia/AptProviderArchiveEvidence.cpp:301-308 | Reads digit strings exactly up to the largest unsigned 64-bit integer |

## Left out

- Null arguments and outputs, exceptions other than those of the callbacks, and memory exhaustion.
- Error texts and codes of `AptProviderDpkgState.cpp` transitions, of the deconfiguration builder and validator, of the component ledger and of the effect policy codec: the models say whether a call succeeds. Codes are kept for relationships, Pre-Depends, trigger draining and record extraction.
- DeconfigurationBuilder.Builder.Derive: does not say exactly when a byte, output or step budget runs out; an exhausted budget is its own outcome, apart from granting and denying.
- PreDependsAdmission.Admit: leaves out the input byte budget of 32 MiB, which only refuses; the counts of packages, metadata and queued generations are kept. The order of the records is given as the key order of the map.
- PreDepends.Decide: the output budget uses the sizes of a 64-bit target whose strings and vectors are three words.
- EffectRecords.DecodeRecord: says only what it must read for encodings of records; the caller re-encodes and compares, as in the source.
- EffectPreimage.EncodeInputs: the launch environment is a list of names and values as its own class makes them; the first entry of a name wins. The set of required names is computed, not inserted one by one.
- Lookup3.HashLittle: the two-seed variant repeats the loops in the source; here both call the same methods, and the byte-wise and half-word switches are written lane by lane. Memory behind the key up to the next word is assumed readable for the masked path, as the source states.
- Mixing.Wrapped: stands for the cast of a length to 32 bits and is defined by counting up; `WrappedTurns` and `WrappedAdds` pin it down.
- Cytore.File.Open: locking, permissions, extended attributes, unlinking and the process exit of its assertions; an ended process is an outcome. Synchronising and unmapping on close are not modelled beyond forgetting the mappings.
- ArenaRuns.RunKeeps: assumes requests whose own size arithmetic does not wrap and sizes below 2^32, as the header's word requires; `SizeFollows` covers the rest. The operating system never places a mapping on a live one.
- RecordExtraction.ReadRecords: decompression, cancellation and the comparison of a record's fields with its manifest; the sort is one that keeps equal ranges in order.
- The conditional route of `VerifyTransition` and everything built on the restoration ledger; `ApplyState`; parsing of `dpkg-query` output.
- Script evidence, effect digests and checkpoint bounds in `BuildDeconfigurationAllowances`; byte framing of approvals.
- Archive inspection, review authorization and payload capture in `ComponentSuccession::Begin` are given as one answer each.
- `ComponentSuccession::AuthorizeLaunch` identity hashes of closures beyond comparing them with the bound ones.
- libapt-pkg glue, the broker, launch and capture of files, processes and scripts, and the user interface.
