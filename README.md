# code-study-planner core, modelled in Dafny

code-study-planner lets a student plan their studies semester by semester.
The catalogue and the realised assessments come from the university's
learning platform. This project models five parts of it, with the
properties their code promises proved about the model:

- **Plan merger** (`useSemestersList`). The stored study plan is turned into
  the list of semesters the planner shows. Each planned module id is resolved
  against the catalogue; unresolved ids are dropped. Each stored semester is
  matched with its learning-platform semester, which gives the `isActive`
  flag and the four registration windows. Then every assessment record of
  the student is folded in as a past entry. It goes into the first semester
  with the record's semester id, in the list chosen by assessment style and
  type, and only if the assessed module is in the catalogue.
  (`semesters_list.dfy`, over the types in `plan_types.dfy`.)
- **Semester card** (`Semester.tsx`):
  - the offset label ("Current semester", "In 1.5 years", …);
  - the credit total;
  - the drop gate of each of the four lists, plus the header and footer drop
    zones;
  - the droppable ids and the add buttons.
  (`semester_card.dfy`.)
- **List section** (`ModulesListSection`). This decides whether a list
  accepts a drop, how it is styled while a drag is in progress, and which
  items it renders. (`modules_list_section.dfy`.)
- **Search store** (`modulesSearchStore`). The module search's query and
  eight filters form a class. The store is initialised from the page's URL
  parameters, changed by its setters and written back to the URL by the sync
  effect. (`modules_search_store.dfy`.)
- **Seeding script** (`seeding.ts`):
  - the study-program abbreviation map;
  - skipping `V4` programs;
  - saving the programs and their handbooks;
  - keeping only modules that have metadata;
  - expanding the compulsory-elective pairings, located by matching handbook
    names against `(BA|BSc)_(SE|ID|PM)_v(\d+)` (`handbook_name.dfy`).
  (`seeding.dfy`; the metadata table is `module_meta.dfy`.)

`plan_properties.dfy` follows one plan from the merger through the fold to
the card. `wrappers.dfy` and `text.dfy` hold Option/Result and the digit and
substring helpers.

The loops of the source are methods: the assessment fold, the semester
search and the three seeding loops. Each is proved equal to a recursive
function whose properties are proved as lemmas. The search store and the URL
parameters are classes whose methods state their whole new state.

## Model

| member | source | states |
|---|---|---|
| SemestersList.ModuleIndexFrom | components/SemestersList/useSemestersList.ts:37 | the first catalogue position at or after `from` with this id; none before it; none at all when absent |
| SemestersList.FindModule | components/SemestersList/useSemestersList.ts:37 | no module is found exactly when no catalogue module has the id; a found module is in the catalogue and has the id |
| SemestersList.ToPlannedModule | components/SemestersList/useSemestersList.ts:34-54 | at most one entry; empty exactly when the id is not in the catalogue; otherwise a planned entry with the reference's id and the catalogue module of that id |
| SemestersList.PlannedModules | components/SemestersList/useSemestersList.ts:98-105 | the flat-mapped list is no longer than the references |
| SemestersList.PlannedModulesResolved | components/SemestersList/useSemestersList.ts:98-105 | every entry the merger builds is planned, resolved to a catalogue module, and has that module's id |
| SemestersList.PlannedModulesConcat | components/SemestersList/useSemestersList.ts:98-105 | resolution keeps order: resolving two lists one after the other is resolving their concatenation |
| SemestersList.PlannedModulesDropsUnresolved | components/SemestersList/useSemestersList.ts:39-45 | a reference to an unknown module simply disappears from the list |
| SemestersList.PlannedModulesAllResolved | components/SemestersList/useSemestersList.ts:98-105 | when every id resolves, the list has one planned entry per reference, in order, carrying the module found |
| SemestersList.LpSemesterIndexFrom | components/SemestersList/useSemestersList.ts:58-60 | the first learning-platform semester at or after `from` with this id |
| SemestersList.MatchingLpSemester | components/SemestersList/useSemestersList.ts:58-60 | no match exactly when the semesters are not loaded or none has the plan semester's `lpId`; a match is one of them with that id |
| SemestersList.RegistrationOpen | components/SemestersList/useSemestersList.ts:63-64 | one window test: open exactly when both bounds are present and `start < now < end`; its edge cases are stated in RegistrationClosedAtBounds |
| SemestersList.CanRegister | components/SemestersList/useSemestersList.ts:62-84 | the registration flag of a category: the window test on that category's two dates of the matching semester, closed without a match; stated per semester in MergeSemester |
| SemestersList.RegistrationClosedAtBounds | components/SemestersList/useSemestersList.ts:62-84 | windows are strict: closed at the start instant and at the end instant, and closed whenever either bound is missing |
| SemestersList.PlannedLists | components/SemestersList/useSemestersList.ts:97-106 | each of the four lists is the resolution of the stored list of the same category |
| SemestersList.MergeSemester | components/SemestersList/useSemestersList.ts:57-107 | id and `lpId` are copied; active exactly when the matching semester says `isActive` is true; the title is the helper's name for the start date; without a matching semester the result is inactive and cannot register anywhere; each registration flag is the window test of its category; the lists are the resolved stored lists |
| SemestersList.MergePlan | components/SemestersList/useSemestersList.ts:56-108 | no stored plan gives no semesters; otherwise one semester per stored semester, in order, with the same ids |
| SemestersList.MergePlanOnlyPlanned | components/SemestersList/useSemestersList.ts:56-108 | before the fold, every list of every merged semester holds planned entries only, namely the resolved stored list |
| SemestersList.CategoryOf | components/SemestersList/useSemestersList.ts:123-134 | the list an assessment record goes into, chosen from its style and type; its precedence is stated in CategoryPrecedence |
| SemestersList.CategoryPrecedence | components/SemestersList/useSemestersList.ts:123-134 | style `ALTERNATIVE` wins over type; then `REASSESSMENT`, then `EARLY`; everything else is standard, each as an if-and-only-if |
| SemestersList.PastEntry | components/SemestersList/useSemestersList.ts:149-167 | a past entry with the record's id and the assessed module; published only when the record says `true`; passed and level from the grade helper |
| SemestersList.SemesterIndexFrom | components/SemestersList/useSemestersList.ts:113 | the first semester at or after `from` whose `lpId` is the record's semester id |
| SemestersList.AppendEntry | components/SemestersList/useSemestersList.ts:151 | only the chosen list changes and it gains exactly the new entry at its end; every other field is kept |
| SemestersList.ExtendsTransitive | components/SemestersList/useSemestersList.ts:112-168 | "same semester with past entries appended" is transitive |
| SemestersList.ExtendsTransitivePointwise | components/SemestersList/useSemestersList.ts:112-168 | the same, semester by semester over a whole plan |
| SemestersList.ApplyAssessment | components/SemestersList/useSemestersList.ts:112-168 | one record keeps the number of semesters and only appends past entries to them |
| SemestersList.ApplyAssessmentSkips | components/SemestersList/useSemestersList.ts:113-147 | a record whose semester or module is unknown changes nothing |
| SemestersList.ApplyAssessmentAppendsOne | components/SemestersList/useSemestersList.ts:112-168 | otherwise the first semester with that id gains the past entry at the end of the category's list; the other lists, semesters and fields are unchanged |
| SemestersList.ApplyAssessments | components/SemestersList/useSemestersList.ts:112-168 | the whole fold keeps the number of semesters and only appends past entries |
| SemestersList.TotalEntriesUpdate | components/SemestersList/useSemestersList.ts:151 | replacing one semester changes the plan's entry count by that semester's difference |
| SemestersList.ApplyAssessmentsCount | components/SemestersList/useSemestersList.ts:112-168 | the fold adds exactly one entry per record whose semester and module are both found |
| SemestersList.FindSemester | components/SemestersList/useSemestersList.ts:113 | the loop over the semester array returns the first index whose `lpId` matches, or none |
| SemestersList.UseSemestersList | components/SemestersList/useSemestersList.ts:56-177 | the hook's semesters are the merged plan with every assessment record folded in, missing tables reading as empty; loading exactly when one of the four queries loads |
| SemestersList.PushAssessments | components/SemestersList/useSemestersList.ts:110-168 | the in-place loop over the assessment table leaves exactly the fold `ApplyAssessments` of the records over the merged semesters |
| PlanProperties.PlannedThenPast | components/SemestersList/useSemestersList.ts:56-168 | after the fold each list starts with the resolved stored list and continues with past entries only; ids and registration flags are those of the merge |
| PlanProperties.NoSupersession | components/SemestersList/useSemestersList.ts:149-167 | an assessment never replaces the planned entry of the same module: it stays in place and the past entry follows at the end |
| PlanProperties.AppendEntryEcts | components/Semester.tsx:60-70 | pushing an entry raises the card's credit total by exactly that entry's credits |
| PlanProperties.PastEntryEcts | components/Semester.tsx:63-69 | a past entry brings no credits when published and failed, and the module's credits otherwise |
| PlanProperties.AssessmentEcts | components/Semester.tsx:60-70 | one landed record changes only its semester's total, by that past entry's credits |
| PlanProperties.EarlyRefusedStandardTaken | components/Semester.tsx:155-201 | a module that disallows early assessment is refused by every early list, yet taken by the standard list of a current or future semester that lacks it |
| PlanProperties.CardAddButton | components/Semester.tsx:58 | each list's add button is shown exactly when the card is hovered, nothing is dragged and the semester is not past; it is hidden otherwise |
| SemesterCard.OffsetText | components/Semester.tsx:7-29 | every integer offset has a label |
| SemesterCard.OffsetTextExamples | components/Semester.tsx:7-29 | offsets 0, 3 and 4 read "Current semester", "In 1.5 years" and "In 2 years" |
| SemesterCard.FixedOffsetTextExamples | components/Semester.tsx:11-22 | offsets 1, -1, 2 and -2 read "Next semester", "6 months ago", "In 1 year" and "1 year ago" |
| SemesterCard.PastOffsetTextExamples | components/Semester.tsx:26-27 | offsets -5 and -24 read "2.5 years ago" and "12 years ago" |
| SemesterCard.HalfYearsRoundTrip | components/Semester.tsx:24 | the printed number of years, in halves, reads back as the number of half years |
| SemesterCard.FutureLabelRoundTrip | components/Semester.tsx:23-24 | an "In … years" label parses back to its offset |
| SemesterCard.PastLabelRoundTrip | components/Semester.tsx:26-27 | a "… years ago" label parses back to its negative offset |
| SemesterCard.CurrentLabelRoundTrip | components/Semester.tsx:8-10 | "Current semester" parses back to 0 |
| SemesterCard.NextLabelRoundTrip | components/Semester.tsx:11-13 | "Next semester" parses back to 1 |
| SemesterCard.HalfYearAgoLabelRoundTrip | components/Semester.tsx:14-16 | "6 months ago" parses back to -1 |
| SemesterCard.InOneYearLabelRoundTrip | components/Semester.tsx:17-19 | "In 1 year" parses back to 2 |
| SemesterCard.OneYearAgoLabelRoundTrip | components/Semester.tsx:20-22 | "1 year ago" parses back to -2 |
| SemesterCard.OffsetTextRoundTrip | components/Semester.tsx:7-29 | every offset's label parses back to that offset |
| SemesterCard.OffsetTextInjective | components/Semester.tsx:7-29 | two offsets with the same label are equal |
| SemesterCard.OffsetOrDefault | components/Semester.tsx:43 | a missing offset reads as 0, the current semester |
| SemesterCard.IsPastSemester | components/Semester.tsx:52 | a semester is past exactly when its offset is negative |
| SemesterCard.ShowActions | components/Semester.tsx:58 | the card shows its actions when hovered, with nothing dragged, for a semester that is not past; see CardAddButton |
| SemesterCard.EctsOf | components/Semester.tsx:63-69 | one entry's credits: none without a module or for a published failed assessment, the module's credits otherwise; see PastEntryEcts |
| SemesterCard.EctsSum | components/Semester.tsx:60-70 | the `reduce` over one list of entries; its algebra is stated in EctsSumConcat and EctsSumNonNegative |
| SemesterCard.TotalEcts | components/Semester.tsx:60-70 | the reduce over all four lists flattened; split per list in TotalEctsBySection |
| SemesterCard.EctsSumConcat | components/Semester.tsx:60-70 | the credit sum of a concatenation is the sum of the parts |
| SemesterCard.TotalEctsBySection | components/Semester.tsx:60-70 | the card's total over the flattened lists is the sum of the four list totals |
| SemesterCard.EctsSumNonNegative | components/Semester.tsx:60-70 | with non-negative module credits the total is non-negative |
| SemesterCard.HasDraggedModule | components/Semester.tsx:72-86 | the duplicate test holds exactly when some entry's module id equals the dragged module's id, both read optionally |
| SemesterCard.SectionDisabled | components/Semester.tsx:72-86 | the `disabled` prop of each list: past semester or duplicate, and for the early and alternative lists also a dragged module that disallows that assessment; see CardSectionAcceptsIff and CapabilityFlagsIgnored |
| SemesterCard.HeaderDropDisabled | components/Semester.tsx:97-99 | the header and footer drop zones are disabled for a past semester or a duplicate in the standard list; see HeaderFollowsStandard |
| SemesterCard.CardSection | components/Semester.tsx:155-244 | the props the card passes to each of its four lists, rendered by the list section; its drop gate is stated in CardSectionAcceptsIff and its add button in CardAddButton |
| SemesterCard.DroppableId | components/Semester.tsx:162 | the list's droppable id, prefix, semester id and list key joined by colons; injective by DroppableIdInjective |
| SemesterCard.CardSectionAcceptsIff | components/Semester.tsx:52-86 | a list accepts a drop exactly when it is the hovered list, something is dragged, the semester is not past, the list does not hold the dragged module, and the early or alternative capability allows it |
| SemesterCard.CapabilityFlagsIgnored | components/Semester.tsx:181-201 | the standard and reassessment gates ignore the dragged module's capability flags |
| SemesterCard.PastSemesterRejectsAll | components/Semester.tsx:52 | a past semester refuses drops on every list and on the header |
| SemesterCard.HeaderFollowsStandard | components/Semester.tsx:97-99 | the header drop zone is disabled exactly when the standard list is |
| SemesterCard.UnresolvedEntryDuplicate | components/Semester.tsx:72-86 | with nothing dragged, an entry without a module counts as a duplicate, since both sides read as undefined; with a module dragged, that entry does not match it |
| SemesterCard.SectionKeyNoColon | components/Semester.tsx:162 | the list keys put into droppable ids contain no colon |
| SemesterCard.DroppableIdInjective | components/Semester.tsx:162 | a list's droppable id determines its semester and its list |
| SemesterCard.HeaderFooterIdsDistinct | components/Semester.tsx:98 | header, footer and list droppable ids never coincide, for any semester ids |
| ModulesListSection.Items | components/ModulesListSection.tsx:101-108 | one item per entry, in order, with the entry's id as key, its position as index, its module and assessment, and a draggable id with the module-draggable prefix |
| ModulesListSection.ItemsDraggableRoundTrip | components/ModulesListSection.tsx:101-108 | an item's draggable id gives back its entry's id |
| ModulesListSection.AcceptsDropIff | components/ModulesListSection.tsx:32-35 | a list accepts a drop exactly when it is hovered, a drag is in progress, and it is not disabled |
| ModulesListSection.DefaultsRejectDrops | components/ModulesListSection.tsx:24-27 | with the hover or drag props left at their defaults the list refuses drops |
| ModulesListSection.NotAllowedStyling | components/ModulesListSection.tsx:42-59 | the not-allowed cursor shows exactly for a disabled list during a drag; the title is greyed in the same case; such a list refuses drops |
| ModulesListSection.PaddingAndBorder | components/ModulesListSection.tsx:88-98 | the drop-zone padding and the dashed border show exactly when the list accepts a drop; otherwise the padding collapses for an empty list and is flush for a non-empty one |
| ModulesListSection.IsDragTarget | components/ModulesListSection.tsx:32 | hovered, dragging and not disabled; see AcceptsDropIff |
| ModulesListSection.Render | components/ModulesListSection.tsx:20-108 | the decisions the list section renders from its props, props defaulted as the source defaults them; stated in AcceptsDropIff, DefaultsRejectDrops, NotAllowedStyling, PaddingAndBorder and Items |
| ModulesSearchStore.UrlParams.constructor | components/ModulesSearch/modulesSearchStore.ts:1 | the parameters start as given |
| ModulesSearchStore.UrlParams.Get | components/ModulesSearch/modulesSearchStore.ts:35-45 | a value is read exactly when the key is present, and it is the stored one |
| ModulesSearchStore.UrlParams.Set | components/ModulesSearch/modulesSearchStore.ts:116-124 | setting a key updates that key only |
| ModulesSearchStore.WithFilter | components/ModulesSearch/modulesSearchStore.ts:52-94 | the named filter takes the value; the other seven are unchanged |
| ModulesSearchStore.FiltersExtensional | components/ModulesSearch/modulesSearchStore.ts:8-19 | two filter records that agree on all eight filters are equal |
| ModulesSearchStore.NoFiltersAllOff | components/ModulesSearch/modulesSearchStore.ts:97-106 | the cleared filters are all off |
| ModulesSearchStore.UrlKeysDistinct | components/ModulesSearch/modulesSearchStore.ts:116-124 | each filter has its own URL key and none is the query's key |
| ModulesSearchStore.UrlKey | components/ModulesSearch/modulesSearchStore.ts:38-45 | the URL key each filter is read from and written to; distinct by UrlKeysDistinct |
| ModulesSearchStore.QueryParam | components/ModulesSearch/modulesSearchStore.ts:35 | the query read from `q`, empty when absent; read back by ReadBack |
| ModulesSearchStore.FlagParam | components/ModulesSearch/modulesSearchStore.ts:38-45 | one filter read from its key, off when absent; read back by ReadBack |
| ModulesSearchStore.FiltersFromParams | components/ModulesSearch/modulesSearchStore.ts:37-46 | each filter is read from its own URL key |
| ModulesSearchStore.SyncedParams | components/ModulesSearch/modulesSearchStore.ts:116-124 | the nine writes of the sync effect in their order; stated in SyncedParamsKeys, SyncedParamsKeepsOthers and SyncedParamsValues |
| ModulesSearchStore.SyncedParamsKeys | components/ModulesSearch/modulesSearchStore.ts:115-124 | after the sync the parameters hold exactly the old keys plus the store's nine |
| ModulesSearchStore.SyncedParamsKeepsOthers | components/ModulesSearch/modulesSearchStore.ts:115-124 | parameters that are not the store's keep their value |
| ModulesSearchStore.SyncedParamsValues | components/ModulesSearch/modulesSearchStore.ts:116-124 | the query key holds the query and each filter key that filter's value |
| ModulesSearchStore.ReadBack | components/ModulesSearch/modulesSearchStore.ts:35-46 | parameters holding these values initialise exactly this query and these filters |
| ModulesSearchStore.ParamsRoundTrip | components/ModulesSearch/modulesSearchStore.ts:35-46 | syncing and then initialising gives back the query and the filters |
| ModulesSearchStore.ModulesSearchStore.constructor | components/ModulesSearch/modulesSearchStore.ts:34-46 | query and filters are read from the URL parameters |
| ModulesSearchStore.ModulesSearchStore.SetSearchQuery | components/ModulesSearch/modulesSearchStore.ts:49-51 | the query changes and the filters stay |
| ModulesSearchStore.ModulesSearchStore.SetOnlyMandaryOrCompulsoryElective | components/ModulesSearch/modulesSearchStore.ts:52-59 | only the mandatory filter changes |
| ModulesSearchStore.ModulesSearchStore.SetOnlyAlternativeAssessment | components/ModulesSearch/modulesSearchStore.ts:60-64 | only the alternative filter changes |
| ModulesSearchStore.ModulesSearchStore.SetOnlyEarlyAssessment | components/ModulesSearch/modulesSearchStore.ts:65-69 | only the early filter changes |
| ModulesSearchStore.ModulesSearchStore.SetOnlyPassed | components/ModulesSearch/modulesSearchStore.ts:70-74 | only the passed filter changes |
| ModulesSearchStore.ModulesSearchStore.SetOnlyFailed | components/ModulesSearch/modulesSearchStore.ts:75-79 | only the failed filter changes |
| ModulesSearchStore.ModulesSearchStore.SetOnlyMyStudies | components/ModulesSearch/modulesSearchStore.ts:80-84 | only the my-studies filter changes |
| ModulesSearchStore.ModulesSearchStore.SetOnlyMySemester | components/ModulesSearch/modulesSearchStore.ts:85-89 | only the my-semester filter changes |
| ModulesSearchStore.ModulesSearchStore.SetOnlyNotTaken | components/ModulesSearch/modulesSearchStore.ts:90-94 | only the not-taken filter changes |
| ModulesSearchStore.ModulesSearchStore.ClearFilters | components/ModulesSearch/modulesSearchStore.ts:95-107 | every filter is off and the query stays |
| ModulesSearchStore.ModulesSearchStore.SyncToUrl | components/ModulesSearch/modulesSearchStore.ts:115-124 | the parameters become the old ones with the query and the eight filters written over them |
| ModulesSearchStore.SyncThenReload | components/ModulesSearch/modulesSearchStore.ts:34-46 | a store created after the sync has the synced store's query and filters |
| Seeding.GetAbbreviation | backend/seeding.ts:145-155 | an unknown name throws with the fixed message followed by the name |
| Seeding.AbbreviationRoundTrip | backend/seeding.ts:145-155 | each abbreviation's name maps back to it, and a name that maps is that abbreviation's name |
| Seeding.IsSkipped | backend/seeding.ts:249-251 | a program is skipped exactly when its abbreviation contains `V4` |
| Seeding.HandbookRowsFacts | backend/seeding.ts:263-273 | one handbook row per fetched handbook, in order, with its id, its name and the program's row |
| Seeding.SaveProgram | backend/seeding.ts:249-273 | one pass of the program loop: skip, throw, or save the program and its handbooks; stated through SavePrograms |
| Seeding.SavePrograms | backend/seeding.ts:248-274 | the program loop, stopping at the first throw; stated in ProgramsStopAtError, ProgramsError, ProgramsSaved and HandbooksLinked |
| Seeding.ProgramsStopAtError | backend/seeding.ts:248-274 | after a program throws, the later programs change nothing |
| Seeding.FirstRejected | backend/seeding.ts:248-253 | the first program that is neither skipped nor known, with every earlier one accepted; none when all are accepted |
| Seeding.ProgramsError | backend/seeding.ts:248-274 | the loop throws exactly when some program is rejected, and its message names the abbreviation of the first one |
| Seeding.ProgramsSaved | backend/seeding.ts:248-274 | without an error, one row per program that is not skipped, in order, with its id and its abbreviation; the handbook rows are exactly each kept program's handbooks in order, with id and name, linked to that program's row |
| Seeding.AllHandbookRowsCount | backend/seeding.ts:263-273 | the kept programs yield as many handbook rows as they have handbooks |
| Seeding.AllHandbookRowsAt | backend/seeding.ts:263-273 | the `k`-th handbook of the `i`-th kept program is saved right after the earlier programs' handbooks, with its id and name, linked to row `i` |
| Seeding.HandbooksLinked | backend/seeding.ts:263-273 | every handbook row points at an already saved program row, and in non-decreasing order |
| Seeding.SaveStudyPrograms | backend/seeding.ts:248-274 | the program loop's saved rows and error are those of the recursive definition |
| Seeding.SavedModulesAreKnown | backend/seeding.ts:276-292 | a module is saved exactly when it has metadata, with the metadata's proficiency and not marked outdated |
| Seeding.ModuleRowOf | backend/seeding.ts:277-291 | the row a fetched module is saved as: only with metadata, with its proficiency, not outdated; see SavedModulesAreKnown |
| Seeding.SaveModulesOf | backend/seeding.ts:276-292 | the module loop as a filter over the fetched modules; stated in SavedModulesAreKnown and SaveModulesConcat |
| Seeding.SaveModulesConcat | backend/seeding.ts:276-292 | the module loop keeps fetched order |
| Seeding.SaveModules | backend/seeding.ts:276-292 | the loop's saved rows are those of the recursive definition |
| Seeding.TasksOf | backend/seeding.ts:294 | one pass per handbook version, in order |
| Seeding.TasksCount | backend/seeding.ts:293-294 | the inner loop runs once per version of every pairing |
| Seeding.TasksConcat | backend/seeding.ts:293-294 | the passes of two pairing lists concatenate |
| Seeding.FindHandbook | backend/seeding.ts:295-304 | the first saved handbook whose name matches the pairing's department and version; none before it; none at all when absent |
| Seeding.PairingModules | backend/seeding.ts:306-308 | a saved module is taken exactly when its identifier is one of the pairing's |
| Seeding.PairingModulesConcat | backend/seeding.ts:306-308 | the filter keeps saved order |
| Seeding.ExpandStopsAtError | backend/seeding.ts:310-317 | after a pass throws, the later passes change nothing |
| Seeding.ExpandTask | backend/seeding.ts:295-325 | one pass of the inner pairing loop: find the handbook, filter the modules, throw or save the row; stated through Expand |
| Seeding.Expand | backend/seeding.ts:293-327 | the pairing loops over all passes, stopping at the first throw; stated in ExpandResult, ExpandErrorMessage and ExpandStopsAtError |
| Seeding.ExpandResult | backend/seeding.ts:293-327 | the loops succeed exactly when every pass finds a handbook; then one row per pass, with the first matching handbook and the pairing's saved modules |
| Seeding.ExpandErrorMessage | backend/seeding.ts:310-317 | a thrown message names the department and version of a pass that found no handbook |
| Seeding.ExpandPairings | backend/seeding.ts:293-327 | the nested loops' rows and error are those of the recursive definition |
| Seeding.CompulsoryElectiveTasks | backend/seeding.ts:121-143 | the fixed pairings give four passes: SE v2, SE v3, SE v2 and SE v3 |
| Seeding.PairingModulesKnown | backend/seeding.ts:29-143 | every module a compulsory-elective pairing names has an entry in the metadata table |
| Seeding.Seed | backend/seeding.ts:244-327 | the three loops in sequence, an error in the program loop ending the script |
| Seeding.SeedRun | backend/seeding.ts:244-327 | the script's three loops in sequence: a program error ends the run, then modules, then pairings; stated in SeedSucceeds |
| Seeding.SeedSucceeds | backend/seeding.ts:244-327 | the script ends without error exactly when every program is accepted and each of the four passes finds a handbook; then four pairing rows are saved |
| HandbookName.DigitRun | backend/seeding.ts:297 | the greedy `\d+`: a run of digits that ends at the end of the name or before a non-digit |
| HandbookName.DigitRunIs | backend/seeding.ts:297 | any maximal digit run is the one found |
| HandbookName.DegreeAtFacts | backend/seeding.ts:297 | a degree read at a position is `BA` or `BSc` and occurs there |
| HandbookName.DepartmentAtFacts | backend/seeding.ts:297 | a department read is `SE`, `ID` or `PM` and occurs there |
| HandbookName.MatchAtShape | backend/seeding.ts:296-297 | a match at a position has the pattern's groups, its full text is their concatenation, which occurs there, and the version digits are maximal |
| HandbookName.MatchFromLeftmost | backend/seeding.ts:297 | the scan returns the match at the first matching position at or after the start |
| HandbookName.MatchIsLeftmost | backend/seeding.ts:297 | the name matches exactly when the pattern occurs somewhere, and the match is the leftmost one |
| HandbookName.MatchAt | backend/seeding.ts:297 | the match of the expression at one position, with the greedy digit run; stated in MatchAtShape and MatchAtIs |
| HandbookName.Match | backend/seeding.ts:296-297 | `String.match` without the global flag: the leftmost match; stated in MatchIsLeftmost |
| HandbookName.HandbookMatches | backend/seeding.ts:295-304 | the find predicate: a match whose department group is the pairing's and whose digits read as the version, the degree ignored; see CanonicalNameIsFound, PrefixedNameIsFound and FoundNameNamesIt |
| HandbookName.MatchAtIs | backend/seeding.ts:297 | wherever degree, department and digits occur in pattern form, not followed by a digit, the expression matches there with exactly those groups |
| HandbookName.NameFoundAt | backend/seeding.ts:295-304 | when that occurrence is the leftmost match, the name is found for its department and the value of its digits, at any position |
| HandbookName.DegreeAtIs | backend/seeding.ts:297 | where `BA` or `BSc` occurs, it is the degree read |
| HandbookName.DepartmentAtIs | backend/seeding.ts:297 | where a department occurs, it is the department read |
| HandbookName.CanonicalNameMatch | backend/seeding.ts:296-297 | a name that starts with degree, department and printed version, followed by a non-digit, matches with exactly those groups |
| HandbookName.CanonicalNameIsFound | backend/seeding.ts:295-304 | such a handbook name is accepted for its department and version |
| HandbookName.PrefixedNameIsFound | backend/seeding.ts:295-304 | a name with text before the pattern that holds no `B` is still found for its department and version |
| HandbookName.PrefixedNameExample | backend/seeding.ts:295-304 | `Modulhandbuch BSc_SE_v3` is found for SE, version 3 |
| HandbookName.FoundNameNamesIt | backend/seeding.ts:295-304 | an accepted name contains a degree, the department and digits whose value is the version |
| Text.Includes | backend/seeding.ts:249 | the `includes` test holds exactly when the text occurs at some position |
| Text.NatToStringRoundTrip | components/Semester.tsx:24 | a printed natural number reads back as itself |
| Text.NatToStringInjective | components/Semester.tsx:24 | different numbers print differently |
| PlanTypes.WithEntries | components/SemestersList/useSemestersList.ts:151 | replacing one list sets that list and keeps the other three |

## Left out

- I/O: the database repositories, learning-platform queries, pagination, `clearDatabase`, the access token, console output and the async scheduling of the seeding script. The fetched data are parameters.
- The database assigns ids to saved rows, as a generated uuid for study programs. The model uses the row's position instead. Unique constraints are not modelled.
- React: hooks, memoisation and re-rendering are not modelled. The store's `set` is modelled as a field update, and its effect as the explicit `SyncToUrl`.
- The card's own hover is a `useState`. It is a parameter here, as is the hovered-section prop.
- Layout, styles and Droppable internals are not modelled. Only the decision values the section computes are.
- Time: `dayjs()` is evaluated several times in the source. The model uses one `now` instant. In the source a missing bound becomes `dayjs(undefined)`, a fresh "now" read at that moment. A missing end then closes the window. With a missing start and an end present, the outcome depends on the timing of the separate clock reads. The model fixes every window with a missing bound as closed.
- Assessment rows: the source asserts `i.semester!.id` and `i.semesterModule!.id` (useSemestersList.ts:113, 138), so a row without a semester or a module throws a `TypeError`. `LpAssessment` carries plain string ids, so that failure is not modelled.
- Credits: `ects` is an `int`. The source sums JavaScript numbers (Semester.tsx:69), so fractional credits and floating-point rounding are not modelled.
- `getGradeInfo`, `getSemesterName` and `getUserUrl` are called, but their code is not part of this model. They are arrow-typed parameters.
- SemesterCard.OffsetText: only integer offsets are modelled. The source prints `offset / 2` with JavaScript's number formatting, which is modelled for integers only. Exponent notation above 1e21 is not modelled.
- HandbookName.FoundNameNamesIt: the version is the exact value of the digit run. In the source `parseInt` loses precision for runs of more than 15 digits.
- ModulesSearchStore.FiltersFromParams: the `urlParams` helper is not part of this model. The query reads as text, and a filter is on only when it reads as the flag `true`.
- The metadata table is a `map`. JavaScript's object lookup on a prototype key (`toString`, …) is not modelled.
- A program's `moduleHandbooks` is always a list here. The source's non-null assertion on a missing list, which would throw, is not modelled.
- Capability flags: `allowEarlyAssessment` and `allowAlternativeAssessment` are booleans. The source's `=== false` also lets a missing flag through, which the model cannot express.
- Code versus specification. The model follows the code in each of these cases:
  - registration windows are strict at both ends;
  - a past entry is appended next to the planned entry of the same module, not in its place;
  - capability flags gate only the early and alternative lists;
  - the card's `standartAssessments` and the merger's `standardAssessments` are one list.
