/** Properties that follow a merged plan from the merger through the
    assessment fold to the semester card: what the fold keeps, what it adds,
    how the card's credit total moves with it, and how one dragged module is
    judged by the card's lists. */
module PlanProperties {
  import opened Wrappers
  import opened PlanTypes
  import opened SemestersList
  import opened SemesterCard
  import ModulesListSection

  /** After the whole fold, every list of every semester starts with the
      planned entries the merger built from the stored plan, in order, and
      continues with past entries only; identity and registration flags are
      those the merger computed. */
  lemma PlannedThenPast(studyPlan: Option<seq<ApiSemester>>, lp: Option<seq<LpSemester>>, modules: seq<Module>,
                        now: int, h: Helpers, records: seq<LpAssessment>, i: nat, c: Category)
    requires i < |ApplyAssessments(MergePlan(studyPlan, lp, modules, now, h), records, modules, h)|
    ensures studyPlan.Some? && i < |studyPlan.value|
    ensures var out := ApplyAssessments(MergePlan(studyPlan, lp, modules, now, h), records, modules, h)[i];
      var planned := PlannedModules(ApiEntries(studyPlan.value[i].modules, c), modules);
      && out.id == studyPlan.value[i].id && out.lpId == studyPlan.value[i].lpId
      && RegistrationFlag(out, c) == CanRegister(MatchingLpSemester(lp, studyPlan.value[i].lpId), c, now)
      && |planned| <= |Entries(out.modules, c)|
      && Entries(out.modules, c)[..|planned|] == planned
      && forall j :: |planned| <= j < |Entries(out.modules, c)| ==> Entries(out.modules, c)[j].Past?
  {
    var merged := MergePlan(studyPlan, lp, modules, now, h);
    var out := ApplyAssessments(merged, records, modules, h)[i];
    MergePlanOnlyPlanned(studyPlan, lp, modules, now, h, i, c);
    assert Extends(merged[i], out);
    assert AppendsPast(Entries(merged[i].modules, c), Entries(out.modules, c));
    assert out.(modules := merged[i].modules) == merged[i];
    assert RegistrationFlag(out, c) == RegistrationFlag(merged[i], c);
  }

  /** A past entry is only ever pushed: a planned entry of module `m` stays
      where it was when an assessment of `m` lands in the same list, so the
      list then holds `m` twice, once planned and once past. */
  lemma NoSupersession(ss: seq<Semester>, a: LpAssessment, modules: seq<Module>, h: Helpers, k: nat, m: Module, j: nat)
    requires k < |ss| && ss[k].lpId == a.semesterId
    requires forall i :: 0 <= i < k ==> ss[i].lpId != a.semesterId
    requires FindModule(modules, a.semesterModuleId) == Some(m)
    requires var l := Entries(ss[k].modules, CategoryOf(a.assessmentStyle, a.assessmentType));
      j < |l| && l[j].Planned? && l[j].catalogModule == Some(m)
    ensures var before := Entries(ss[k].modules, CategoryOf(a.assessmentStyle, a.assessmentType));
      var after := Entries(ApplyAssessment(ss, a, modules, h)[k].modules, CategoryOf(a.assessmentStyle, a.assessmentType));
      && |after| == |before| + 1
      && after[j] == before[j]
      && after[|after| - 1].Past? && after[|after| - 1].catalogModule == Some(m)
  {
    ApplyAssessmentAppendsOne(ss, a, modules, h, k, m);
  }

  /** Pushing one entry onto any list raises the card's total by exactly
      that entry's credits. */
  lemma AppendEntryEcts(s: Semester, c: Category, e: SemesterModule)
    ensures TotalEcts(AppendEntry(s, c, e)) == TotalEcts(s) + EctsOf(e)
  {
    var r := AppendEntry(s, c, e);
    TotalEctsBySection(s);
    TotalEctsBySection(r);
    EctsSumConcat(Entries(s.modules, c), [e]);
    assert [e][..0] == [];
  }

  /** The credits a past entry brings: none for a published failed
      assessment, the module's credits for every other one. */
  lemma PastEntryEcts(a: LpAssessment, m: Module, h: Helpers)
    ensures EctsOf(PastEntry(a, m, h)) == if a.published == Some(true) && !h.gradeInfo(a.grade).passed then 0 else m.ects
  {
  }

  /** One landed assessment changes the credit total of its semester by the
      credits of its past entry, and of no other semester. A planned module
      that is then assessed and not failed is counted twice. */
  lemma AssessmentEcts(ss: seq<Semester>, a: LpAssessment, modules: seq<Module>, h: Helpers, k: nat, m: Module)
    requires k < |ss| && ss[k].lpId == a.semesterId
    requires forall i :: 0 <= i < k ==> ss[i].lpId != a.semesterId
    requires FindModule(modules, a.semesterModuleId) == Some(m)
    ensures var r := ApplyAssessment(ss, a, modules, h);
      && TotalEcts(r[k]) == TotalEcts(ss[k]) + (if a.published == Some(true) && !h.gradeInfo(a.grade).passed then 0 else m.ects)
      && forall i :: 0 <= i < |ss| && i != k ==> TotalEcts(r[i]) == TotalEcts(ss[i])
  {
    assert SemesterIndexFrom(ss, a.semesterId, 0) == Some(k);
    AppendEntryEcts(ss[k], CategoryOf(a.assessmentStyle, a.assessmentType), PastEntry(a, m, h));
    PastEntryEcts(a, m, h);
  }

  /** A dragged module that does not allow early assessment is refused by
      the early list of every semester, while the standard list of a
      current or future semester that does not yet hold it takes it. */
  lemma EarlyRefusedStandardTaken(s: Semester, dragged: seq<Module>, offsetToCurrentSemester: Option<int>, isHovered: bool)
    requires |dragged| > 0 && !dragged[0].allowEarlyAssessment
    ensures CardSection(s, Early, dragged, offsetToCurrentSemester, Some(SectionKey(Early)), isHovered).isDropDisabled
    ensures OffsetOrDefault(offsetToCurrentSemester) >= 0 && !HasDraggedModule(Entries(s.modules, Standard), dragged) ==>
      !CardSection(s, Standard, dragged, offsetToCurrentSemester, Some(SectionKey(Standard)), isHovered).isDropDisabled
  {
    CardSectionAcceptsIff(s, Early, dragged, offsetToCurrentSemester, Some(SectionKey(Early)), isHovered);
    CardSectionAcceptsIff(s, Standard, dragged, offsetToCurrentSemester, Some(SectionKey(Standard)), isHovered);
  }

  /** The add buttons of the card's lists are shown exactly when the card is
      hovered, nothing is dragged and the semester is not past; otherwise
      they are rendered hidden. */
  lemma CardAddButton(s: Semester, c: Category, dragged: seq<Module>, offsetToCurrentSemester: Option<int>,
                      hoveredSection: Option<string>, isHovered: bool)
    ensures CardSection(s, c, dragged, offsetToCurrentSemester, hoveredSection, isHovered).addButton
      == if isHovered && |dragged| == 0 && OffsetOrDefault(offsetToCurrentSemester) >= 0
         then ModulesListSection.Shown else ModulesListSection.Hidden
  {
  }
}
