/** The plan merger behind the kanban view (`useSemestersList`): it joins the
    locally stored study plan, the learning platform's semester calendar and
    the learning platform's assessment table into merged semesters with four
    ordered category lists each. */
module SemestersList {
  import opened Wrappers
  import opened PlanTypes

  // ----- Inputs -------------------------------------------------------------

  /** A module reference of the locally stored plan. */
  datatype ApiSemesterModule = ApiSemesterModule(moduleId: string)

  datatype ApiSemesterModules = ApiSemesterModules(
    earlyAssessments: seq<ApiSemesterModule>,
    standardAssessments: seq<ApiSemesterModule>,
    alternativeAssessments: seq<ApiSemesterModule>,
    reassessments: seq<ApiSemesterModule>)

  /** A semester of the locally stored plan; `lpId` names its
      learning-platform counterpart. */
  datatype ApiSemester = ApiSemester(
    id: string,
    lpId: string,
    startDate: string,
    modules: ApiSemesterModules)

  function ApiEntries(m: ApiSemesterModules, c: Category): seq<ApiSemesterModule>
  {
    match c
    case Early => m.earlyAssessments
    case Standard => m.standardAssessments
    case Alternative => m.alternativeAssessments
    case Reassessment => m.reassessments
  }

  /** A learning-platform semester: its activity flag and the bounds of its
      four registration windows, as instants on one integer time line; an
      absent bound is `None`. */
  datatype LpSemester = LpSemester(
    id: string,
    isActive: Option<bool>,
    moduleEarlyRegistrationStartDate: Option<int>,
    moduleEarlyRegistrationEndDate: Option<int>,
    moduleStandardRegistrationStartDate: Option<int>,
    moduleStandardRegistrationEndDate: Option<int>,
    moduleAlternativeRegistrationStartDate: Option<int>,
    moduleAlternativeRegistrationEndDate: Option<int>,
    moduleReassessmentRegistrationPhaseStartDate: Option<int>,
    moduleReassessmentRegistrationPhaseEndDate: Option<int>)

  datatype Assessor = Assessor(id: string, name: string)

  /** A row of the learning platform's assessment table. `semesterId` and
      `semesterModuleId` are the ids the source reads through non-null
      assertions (`i.semester!.id`, `i.semesterModule!.id`). */
  datatype LpAssessment = LpAssessment(
    id: string,
    semesterId: string,
    semesterModuleId: string,
    assessmentStyle: string,
    assessmentType: string,
    grade: Option<real>,
    published: Option<bool>,
    submittedOn: Option<string>,
    proposedDate: Option<string>,
    assessor: Option<Assessor>)

  datatype GradeInfo = GradeInfo(passed: bool, level: int)

  /** The helpers the merger calls but whose code is not part of this model:
      `getGradeInfo`, `getSemesterName` and `getUserUrl`. */
  datatype Helpers = Helpers(
    gradeInfo: Option<real> -> GradeInfo,
    semesterName: string -> string,
    userUrl: Option<string> -> string)

  /** The loading flags of the four upstream queries. */
  datatype LoadingFlags = LoadingFlags(
    modules: bool,
    assessmentTable: bool,
    studyPlan: bool,
    semesters: bool)

  datatype SemestersListProps = SemestersListProps(semesters: seq<Semester>, isLoading: bool)

  // ----- Module resolution (`toPlannedModule`) -------------------------------

  /** The first position at or after `from` whose module has this `id`. */
  function ModuleIndexFrom(modules: seq<Module>, id: string, from: nat): (r: Option<nat>)
    requires from <= |modules|
    ensures r.Some? ==> from <= r.value < |modules| && modules[r.value].id == id
    ensures r.Some? ==> forall k :: from <= k < r.value ==> modules[k].id != id
    ensures r.None? ==> forall k :: from <= k < |modules| ==> modules[k].id != id
    decreases |modules| - from
  {
    if from == |modules| then None
    else if modules[from].id == id then Some(from)
    else ModuleIndexFrom(modules, id, from + 1)
  }

  /** `modules.find((j) => j.id === id)`. */
  function FindModule(modules: seq<Module>, id: string): (r: Option<Module>)
    ensures r.None? <==> forall k :: 0 <= k < |modules| ==> modules[k].id != id
    ensures r.Some? ==> r.value in modules && r.value.id == id
  {
    match ModuleIndexFrom(modules, id, 0)
    case None => None
    case Some(k) => Some(modules[k])
  }

  /** A local reference becomes one planned entry when its module resolves
      and no entry at all when it does not. */
  function ToPlannedModule(ref: ApiSemesterModule, modules: seq<Module>): (r: seq<SemesterModule>)
    ensures |r| <= 1
    ensures r == [] <==> forall k :: 0 <= k < |modules| ==> modules[k].id != ref.moduleId
    ensures r != [] ==> r[0].Planned? && r[0].id == ref.moduleId
    ensures r != [] ==> r[0].catalogModule.Some? && r[0].catalogModule.value in modules
    ensures r != [] ==> r[0].catalogModule.value.id == ref.moduleId
  {
    match FindModule(modules, ref.moduleId)
    case None => []
    case Some(m) => [Planned(ref.moduleId, Some(m))]
  }

  /** `refs.flatMap(toPlannedModule)`. */
  function PlannedModules(refs: seq<ApiSemesterModule>, modules: seq<Module>): (r: seq<SemesterModule>)
    ensures |r| <= |refs|
    decreases |refs|
  {
    if refs == [] then [] else ToPlannedModule(refs[0], modules) + PlannedModules(refs[1..], modules)
  }

  /** Every planned entry carries a resolved module of the catalogue whose
      `id` is the entry's own. */
  predicate AllResolved(entries: seq<SemesterModule>, modules: seq<Module>)
  {
    forall k :: 0 <= k < |entries| ==>
      && entries[k].Planned? && entries[k].catalogModule.Some?
      && entries[k].catalogModule.value in modules && entries[k].catalogModule.value.id == entries[k].id
  }

  lemma {:induction false} PlannedModulesResolved(refs: seq<ApiSemesterModule>, modules: seq<Module>)
    ensures AllResolved(PlannedModules(refs, modules), modules)
    decreases |refs|
  {
    if refs != [] {
      PlannedModulesResolved(refs[1..], modules);
      var head, tail := ToPlannedModule(refs[0], modules), PlannedModules(refs[1..], modules);
      var r := PlannedModules(refs, modules);
      assert r == head + tail;
      forall k | 0 <= k < |r|
        ensures r[k] == if k < |head| then head[k] else tail[k - |head|]
      {
      }
    }
  }

  /** `flatMap` distributes over concatenation: the planned list of a
      concatenation is the concatenation of the planned lists. */
  lemma {:induction false} PlannedModulesConcat(a: seq<ApiSemesterModule>, b: seq<ApiSemesterModule>, modules: seq<Module>)
    ensures PlannedModules(a + b, modules) == PlannedModules(a, modules) + PlannedModules(b, modules)
    decreases |a|
  {
    if a == [] {
      assert a + b == b;
    } else {
      assert (a + b)[0] == a[0];
      assert (a + b)[1..] == a[1..] + b;
      PlannedModulesConcat(a[1..], b, modules);
    }
  }

  /** A reference whose module does not resolve leaves no trace. */
  lemma PlannedModulesDropsUnresolved(a: seq<ApiSemesterModule>, ref: ApiSemesterModule, b: seq<ApiSemesterModule>, modules: seq<Module>)
    requires forall k :: 0 <= k < |modules| ==> modules[k].id != ref.moduleId
    ensures PlannedModules(a + [ref] + b, modules) == PlannedModules(a + b, modules)
  {
    var single := PlannedModules([ref], modules);
    assert single == [] by {
      assert [ref][1..] == [];
    }
    calc {
      PlannedModules(a + [ref] + b, modules);
      { PlannedModulesConcat(a + [ref], b, modules); }
      PlannedModules(a + [ref], modules) + PlannedModules(b, modules);
      { PlannedModulesConcat(a, [ref], modules); }
      PlannedModules(a, modules) + single + PlannedModules(b, modules);
      PlannedModules(a, modules) + PlannedModules(b, modules);
      { PlannedModulesConcat(a, b, modules); }
      PlannedModules(a + b, modules);
    }
  }

  /** When every reference resolves, the planned list is the local list in
      the same order, entry for entry. */
  lemma {:induction false} PlannedModulesAllResolved(refs: seq<ApiSemesterModule>, modules: seq<Module>)
    requires forall i :: 0 <= i < |refs| ==> FindModule(modules, refs[i].moduleId).Some?
    ensures |PlannedModules(refs, modules)| == |refs|
    ensures forall i :: 0 <= i < |refs| ==> PlannedModules(refs, modules)[i] == Planned(refs[i].moduleId, FindModule(modules, refs[i].moduleId))
    decreases |refs|
  {
    if refs != [] {
      PlannedModulesAllResolved(refs[1..], modules);
      var r := PlannedModules(refs, modules);
      assert r == [Planned(refs[0].moduleId, FindModule(modules, refs[0].moduleId))] + PlannedModules(refs[1..], modules);
      forall i | 1 <= i < |refs|
        ensures r[i] == Planned(refs[i].moduleId, FindModule(modules, refs[i].moduleId))
      {
        assert refs[1..][i - 1] == refs[i];
      }
    }
  }

  // ----- Remote semester metadata and registration windows ------------------

  /** The first position at or after `from` of a learning-platform semester with this id. */
  function LpSemesterIndexFrom(lp: seq<LpSemester>, id: string, from: nat): (r: Option<nat>)
    requires from <= |lp|
    ensures r.Some? ==> from <= r.value < |lp| && lp[r.value].id == id
    ensures r.Some? ==> forall k :: from <= k < r.value ==> lp[k].id != id
    ensures r.None? ==> forall k :: from <= k < |lp| ==> lp[k].id != id
    decreases |lp| - from
  {
    if from == |lp| then None
    else if lp[from].id == id then Some(from)
    else LpSemesterIndexFrom(lp, id, from + 1)
  }

  /** `semestersQuery.data?.semesters.find((i) => i.id === lpId)`. */
  function MatchingLpSemester(lp: Option<seq<LpSemester>>, lpId: string): (r: Option<LpSemester>)
    ensures r.None? <==> lp.None? || forall k :: 0 <= k < |lp.value| ==> lp.value[k].id != lpId
    ensures r.Some? ==> lp.Some? && r.value in lp.value && r.value.id == lpId
  {
    match lp
    case None => None
    case Some(semesters) =>
      match LpSemesterIndexFrom(semesters, lpId, 0)
      case None => None
      case Some(k) => Some(semesters[k])
  }

  /** The bounds of the registration window of category `c`; both are absent
      when there is no matching remote semester. */
  function RegistrationWindow(m: Option<LpSemester>, c: Category): (Option<int>, Option<int>)
  {
    match m
    case None => (None, None)
    case Some(s) =>
      match c
      case Early => (s.moduleEarlyRegistrationStartDate, s.moduleEarlyRegistrationEndDate)
      case Standard => (s.moduleStandardRegistrationStartDate, s.moduleStandardRegistrationEndDate)
      case Alternative => (s.moduleAlternativeRegistrationStartDate, s.moduleAlternativeRegistrationEndDate)
      case Reassessment => (s.moduleReassessmentRegistrationPhaseStartDate, s.moduleReassessmentRegistrationPhaseEndDate)
  }

  /** `dayjs(start).isBefore(dayjs()) && dayjs(end).isAfter(dayjs())` at
      instant `now`; an absent bound closes the window. */
  predicate RegistrationOpen(start: Option<int>, end: Option<int>, now: int)
  {
    start.Some? && end.Some? && start.value < now && now < end.value
  }

  function CanRegister(m: Option<LpSemester>, c: Category, now: int): bool
  {
    RegistrationOpen(RegistrationWindow(m, c).0, RegistrationWindow(m, c).1, now)
  }

  /** The registration flag of category `c` of a merged semester. */
  function RegistrationFlag(s: Semester, c: Category): bool
  {
    match c
    case Early => s.canRegisterForEarlyAssessments
    case Standard => s.canRegisterForStandardAssessments
    case Alternative => s.canRegisterForAlternativeAssessments
    case Reassessment => s.canRegisterForReassessments
  }

  /** Both comparisons are strict: a window is closed at its start, at its
      end, and whenever a bound is missing. */
  lemma RegistrationClosedAtBounds(start: int, end: int)
    ensures !RegistrationOpen(Some(start), Some(end), start)
    ensures !RegistrationOpen(Some(start), Some(end), end)
    ensures forall now :: !RegistrationOpen(None, Some(end), now) && !RegistrationOpen(Some(start), None, now)
  {
  }

  // ----- Building merged semesters ------------------------------------------

  /** The four planned lists of a local semester, category by category. */
  function PlannedLists(m: ApiSemesterModules, modules: seq<Module>): (r: SemesterModules)
    ensures forall c :: Entries(r, c) == PlannedModules(ApiEntries(m, c), modules)
  {
    SemesterModules(
      PlannedModules(m.earlyAssessments, modules),
      PlannedModules(m.standardAssessments, modules),
      PlannedModules(m.alternativeAssessments, modules),
      PlannedModules(m.reassessments, modules))
  }

  /** The merged semester for one semester of the local plan. */
  function MergeSemester(sem: ApiSemester, lp: Option<seq<LpSemester>>, modules: seq<Module>, now: int, h: Helpers): (r: Semester)
    ensures r.id == sem.id && r.lpId == sem.lpId
    ensures MatchingLpSemester(lp, sem.lpId).None? ==> !r.isActive && forall c :: !RegistrationFlag(r, c)
    ensures r.isActive <==> exists m :: MatchingLpSemester(lp, sem.lpId) == Some(m) && m.isActive == Some(true)
    ensures r.title == h.semesterName(sem.startDate)
    ensures forall c :: RegistrationFlag(r, c) == CanRegister(MatchingLpSemester(lp, sem.lpId), c, now)
    ensures r.modules == PlannedLists(sem.modules, modules)
  {
    var matching := MatchingLpSemester(lp, sem.lpId);
    Semester(
      sem.id,
      sem.lpId,
      match matching case Some(m) => m.isActive.GetOr(false) case None => false,
      CanRegister(matching, Early, now),
      CanRegister(matching, Standard, now),
      CanRegister(matching, Alternative, now),
      CanRegister(matching, Reassessment, now),
      h.semesterName(sem.startDate),
      PlannedLists(sem.modules, modules))
  }

  /** `studyPlan.data?.semesters?.map(...) ?? []`: one merged semester per
      local semester, in the same order. */
  function MergePlan(studyPlan: Option<seq<ApiSemester>>, lp: Option<seq<LpSemester>>, modules: seq<Module>, now: int, h: Helpers): (r: seq<Semester>)
    ensures studyPlan.None? ==> r == []
    ensures studyPlan.Some? ==> |r| == |studyPlan.value|
    ensures studyPlan.Some? ==> forall i :: 0 <= i < |r| ==> r[i].id == studyPlan.value[i].id && r[i].lpId == studyPlan.value[i].lpId
  {
    match studyPlan
    case None => []
    case Some(plan) => seq(|plan|, i requires 0 <= i < |plan| => MergeSemester(plan[i], lp, modules, now, h))
  }

  /** Every entry of a freshly merged semester is a planned entry. */
  lemma MergePlanOnlyPlanned(studyPlan: Option<seq<ApiSemester>>, lp: Option<seq<LpSemester>>, modules: seq<Module>, now: int, h: Helpers, i: nat, c: Category)
    requires i < |MergePlan(studyPlan, lp, modules, now, h)|
    ensures studyPlan.Some?
    ensures Entries(MergePlan(studyPlan, lp, modules, now, h)[i].modules, c) == PlannedModules(ApiEntries(studyPlan.value[i].modules, c), modules)
    ensures forall e :: e in Entries(MergePlan(studyPlan, lp, modules, now, h)[i].modules, c) ==> e.Planned?
  {
    var r := MergePlan(studyPlan, lp, modules, now, h);
    assert r[i] == MergeSemester(studyPlan.value[i], lp, modules, now, h);
    PlannedModulesResolved(ApiEntries(studyPlan.value[i].modules, c), modules);
  }

  // ----- Folding in the assessment table ------------------------------------

  /** The category an assessment record goes to; the first matching rule wins. */
  function CategoryOf(assessmentStyle: string, assessmentType: string): Category
  {
    if assessmentStyle == "ALTERNATIVE" then Alternative
    else if assessmentType == "REASSESSMENT" then Reassessment
    else if assessmentType == "EARLY" then Early
    else Standard
  }

  /** Precedence of the category rules: alternative style, then reassessment
      type, then early type, then standard; every record gets exactly one. */
  lemma CategoryPrecedence(style: string, kind: string)
    ensures CategoryOf(style, kind) == Alternative <==> style == "ALTERNATIVE"
    ensures CategoryOf(style, kind) == Reassessment <==> style != "ALTERNATIVE" && kind == "REASSESSMENT"
    ensures CategoryOf(style, kind) == Early <==> style != "ALTERNATIVE" && kind == "EARLY"
    ensures CategoryOf(style, kind) == Standard <==> style != "ALTERNATIVE" && kind != "REASSESSMENT" && kind != "EARLY"
  {
  }

  function AssessorName(a: Option<Assessor>): Option<string>
  {
    match a
    case None => None
    case Some(x) => Some(x.name)
  }

  function AssessorId(a: Option<Assessor>): Option<string>
  {
    match a
    case None => None
    case Some(x) => Some(x.id)
  }

  /** The past entry pushed for an assessment record whose module resolved to `m`. */
  function PastEntry(a: LpAssessment, m: Module, h: Helpers): (e: SemesterModule)
    ensures e.Past? && e.id == a.id && e.catalogModule == Some(m)
    ensures e.assessment.published <==> a.published == Some(true)
    ensures e.assessment.passed == h.gradeInfo(a.grade).passed && e.assessment.level == h.gradeInfo(a.grade).level
  {
    var info := h.gradeInfo(a.grade);
    Past(
      a.id,
      Assessment(
        a.proposedDate,
        a.id,
        a.published == Some(true),
        a.grade,
        info.passed,
        info.level,
        "#",
        a.submittedOn,
        AssessorName(a.assessor),
        h.userUrl(AssessorId(a.assessor))),
      Some(m))
  }

  /** The first position at or after `from` of a merged semester with this `lpId`. */
  function SemesterIndexFrom(ss: seq<Semester>, lpId: string, from: nat): (r: Option<nat>)
    requires from <= |ss|
    ensures r.Some? ==> from <= r.value < |ss| && ss[r.value].lpId == lpId
    ensures r.Some? ==> forall k :: from <= k < r.value ==> ss[k].lpId != lpId
    ensures r.None? ==> forall k :: from <= k < |ss| ==> ss[k].lpId != lpId
    decreases |ss| - from
  {
    if from == |ss| then None
    else if ss[from].lpId == lpId then Some(from)
    else SemesterIndexFrom(ss, lpId, from + 1)
  }

  /** `category.push(e)` on semester `s`. */
  function AppendEntry(s: Semester, c: Category, e: SemesterModule): (r: Semester)
    ensures r.(modules := s.modules) == s
    ensures Entries(r.modules, c) == Entries(s.modules, c) + [e]
    ensures forall c' :: c' != c ==> Entries(r.modules, c') == Entries(s.modules, c')
    ensures EntryCount(r) == EntryCount(s) + 1
  {
    s.(modules := WithEntries(s.modules, c, Entries(s.modules, c) + [e]))
  }

  /** `after` is `before` followed by zero or more past entries. */
  predicate AppendsPast(before: seq<SemesterModule>, after: seq<SemesterModule>)
  {
    |before| <= |after| && after[..|before|] == before
    && forall j :: |before| <= j < |after| ==> after[j].Past?
  }

  /** `after` equals `before` except for past entries appended to its lists. */
  predicate Extends(before: Semester, after: Semester)
  {
    after.(modules := before.modules) == before
    && forall c :: AppendsPast(Entries(before.modules, c), Entries(after.modules, c))
  }

  lemma ExtendsTransitive(a: Semester, b: Semester, c: Semester)
    requires Extends(a, b) && Extends(b, c)
    ensures Extends(a, c)
  {
    forall cat ensures AppendsPast(Entries(a.modules, cat), Entries(c.modules, cat)) {
      var x, y, z := Entries(a.modules, cat), Entries(b.modules, cat), Entries(c.modules, cat);
      assert AppendsPast(x, y) && AppendsPast(y, z);
      assert z[..|x|] == z[..|y|][..|x|];
    }
  }

  lemma ExtendsTransitivePointwise(a: seq<Semester>, b: seq<Semester>, c: seq<Semester>)
    requires |a| == |b| == |c|
    requires forall i :: 0 <= i < |a| ==> Extends(a[i], b[i]) && Extends(b[i], c[i])
    ensures forall i :: 0 <= i < |a| ==> Extends(a[i], c[i])
  {
    forall i | 0 <= i < |a| ensures Extends(a[i], c[i]) {
      ExtendsTransitive(a[i], b[i], c[i]);
    }
  }

  /** One iteration of the assessment loop: skip the record when no merged
      semester has its semester id or its module does not resolve; otherwise
      push one past entry onto the chosen list of the first matching semester. */
  function ApplyAssessment(ss: seq<Semester>, a: LpAssessment, modules: seq<Module>, h: Helpers): (r: seq<Semester>)
    ensures |r| == |ss|
    ensures forall i :: 0 <= i < |ss| ==> Extends(ss[i], r[i])
  {
    match SemesterIndexFrom(ss, a.semesterId, 0)
    case None => ss
    case Some(k) =>
      match FindModule(modules, a.semesterModuleId)
      case None => ss
      case Some(m) => ss[k := AppendEntry(ss[k], CategoryOf(a.assessmentStyle, a.assessmentType), PastEntry(a, m, h))]
  }

  /** An assessment record for an unknown semester, or for a module that does
      not resolve, changes nothing. */
  lemma ApplyAssessmentSkips(ss: seq<Semester>, a: LpAssessment, modules: seq<Module>, h: Helpers)
    requires (forall i :: 0 <= i < |ss| ==> ss[i].lpId != a.semesterId)
          || (forall j :: 0 <= j < |modules| ==> modules[j].id != a.semesterModuleId)
    ensures ApplyAssessment(ss, a, modules, h) == ss
  {
  }

  /** Otherwise exactly one past entry is appended at the end of the chosen
      list of the first semester with that `lpId`; every other list and every
      other semester is unchanged. */
  lemma ApplyAssessmentAppendsOne(ss: seq<Semester>, a: LpAssessment, modules: seq<Module>, h: Helpers, k: nat, m: Module)
    requires k < |ss| && ss[k].lpId == a.semesterId
    requires forall i :: 0 <= i < k ==> ss[i].lpId != a.semesterId
    requires FindModule(modules, a.semesterModuleId) == Some(m)
    ensures var r := ApplyAssessment(ss, a, modules, h);
      && (forall i :: 0 <= i < |ss| && i != k ==> r[i] == ss[i])
      && r[k].(modules := ss[k].modules) == ss[k]
      && Entries(r[k].modules, CategoryOf(a.assessmentStyle, a.assessmentType))
         == Entries(ss[k].modules, CategoryOf(a.assessmentStyle, a.assessmentType)) + [PastEntry(a, m, h)]
      && (forall c :: c != CategoryOf(a.assessmentStyle, a.assessmentType) ==> Entries(r[k].modules, c) == Entries(ss[k].modules, c))
  {
    assert SemesterIndexFrom(ss, a.semesterId, 0) == Some(k);
  }

  /** `for (const i of myAssessments) { ... }` as a fold over the records. */
  function ApplyAssessments(ss: seq<Semester>, records: seq<LpAssessment>, modules: seq<Module>, h: Helpers): (r: seq<Semester>)
    ensures |r| == |ss|
    ensures forall i :: 0 <= i < |ss| ==> Extends(ss[i], r[i])
    decreases |records|
  {
    if records == [] then ss
    else
      var prev := ApplyAssessments(ss, records[..|records| - 1], modules, h);
      var r := ApplyAssessment(prev, records[|records| - 1], modules, h);
      ExtendsTransitivePointwise(ss, prev, r);
      r
  }

  // ----- Counting the appended entries --------------------------------------

  function TotalEntries(ss: seq<Semester>): nat
    decreases |ss|
  {
    if ss == [] then 0 else EntryCount(ss[0]) + TotalEntries(ss[1..])
  }

  lemma {:induction false} TotalEntriesUpdate(ss: seq<Semester>, k: nat, s: Semester)
    requires k < |ss|
    ensures TotalEntries(ss[k := s]) == TotalEntries(ss) - EntryCount(ss[k]) + EntryCount(s)
    decreases |ss|
  {
    if k > 0 {
      assert ss[k := s][1..] == ss[1..][k - 1 := s];
      TotalEntriesUpdate(ss[1..], k - 1, s);
    } else {
      assert ss[k := s][1..] == ss[1..];
    }
  }

  /** A record lands when some merged semester has its semester id and its
      module resolves. */
  predicate Lands(ss: seq<Semester>, a: LpAssessment, modules: seq<Module>)
  {
    (exists i :: 0 <= i < |ss| && ss[i].lpId == a.semesterId)
    && (exists j :: 0 <= j < |modules| && modules[j].id == a.semesterModuleId)
  }

  function LandedCount(ss: seq<Semester>, records: seq<LpAssessment>, modules: seq<Module>): nat
    decreases |records|
  {
    if records == [] then 0
    else LandedCount(ss, records[..|records| - 1], modules) + (if Lands(ss, records[|records| - 1], modules) then 1 else 0)
  }

  /** Each landing record adds exactly one entry, each other record none. */
  lemma {:induction false} ApplyAssessmentsCount(ss: seq<Semester>, records: seq<LpAssessment>, modules: seq<Module>, h: Helpers)
    ensures TotalEntries(ApplyAssessments(ss, records, modules, h)) == TotalEntries(ss) + LandedCount(ss, records, modules)
    decreases |records|
  {
    if records != [] {
      var init := records[..|records| - 1];
      var a := records[|records| - 1];
      var prev := ApplyAssessments(ss, init, modules, h);
      ApplyAssessmentsCount(ss, init, modules, h);
      assert forall i :: 0 <= i < |ss| ==> prev[i].lpId == ss[i].lpId by {
        forall i | 0 <= i < |ss| ensures prev[i].lpId == ss[i].lpId {
          assert Extends(ss[i], prev[i]);
          assert prev[i].(modules := ss[i].modules).lpId == prev[i].lpId;
        }
      }
      assert Lands(prev, a, modules) == Lands(ss, a, modules);
      match SemesterIndexFrom(prev, a.semesterId, 0)
      case None =>
      case Some(k) =>
        match FindModule(modules, a.semesterModuleId)
        case None =>
        case Some(m) =>
          var c := CategoryOf(a.assessmentStyle, a.assessmentType);
          TotalEntriesUpdate(prev, k, AppendEntry(prev[k], c, PastEntry(a, m, h)));
    }
  }

  /** The fold over the first `n + 1` records is one more step of the fold
      over the first `n`. */
  lemma ApplyAssessmentsStep(ss: seq<Semester>, records: seq<LpAssessment>, n: nat, modules: seq<Module>, h: Helpers)
    requires n < |records|
    ensures ApplyAssessments(ss, records[..n + 1], modules, h)
         == ApplyAssessment(ApplyAssessments(ss, records[..n], modules, h), records[n], modules, h)
  {
    assert records[..n + 1][..n] == records[..n];
  }

  // ----- The hook -----------------------------------------------------------

  /** The position of the first semester in `semesters` with this `lpId`
      (`semesters.find((j) => j.lpId === lpId)`). */
  method FindSemester(semesters: array<Semester>, lpId: string) returns (k: Option<nat>)
    ensures k == SemesterIndexFrom(semesters[..], lpId, 0)
  {
    var j := 0;
    while j < semesters.Length
      invariant 0 <= j <= semesters.Length
      invariant SemesterIndexFrom(semesters[..], lpId, j) == SemesterIndexFrom(semesters[..], lpId, 0)
    {
      if semesters[j].lpId == lpId {
        return Some(j);
      }
      j := j + 1;
    }
    return None;
  }

  /** The hook's loop over the assessment table: every record is pushed into
      place in a mutable copy of `merged`, in table order. */
  method PushAssessments(merged: seq<Semester>, myAssessments: seq<LpAssessment>, modules: seq<Module>, h: Helpers)
    returns (r: seq<Semester>)
    ensures r == ApplyAssessments(merged, myAssessments, modules, h)
  {
    var semesters := new Semester[|merged|](i requires 0 <= i < |merged| => merged[i]);
    assert semesters[..] == merged;
    for n := 0 to |myAssessments|
      invariant semesters[..] == ApplyAssessments(merged, myAssessments[..n], modules, h)
    {
      var a := myAssessments[n];
      ApplyAssessmentsStep(merged, myAssessments, n, modules, h);
      ghost var before := semesters[..];
      var found := FindSemester(semesters, a.semesterId);
      if found.None? {
        continue;
      }
      var category := CategoryOf(a.assessmentStyle, a.assessmentType);
      var assessedModule := FindModule(modules, a.semesterModuleId);
      if assessedModule.None? {
        continue;
      }
      var k := found.value;
      var updated := AppendEntry(semesters[k], category, PastEntry(a, assessedModule.value, h));
      assert ApplyAssessment(before, a, modules, h) == before[k := updated];
      semesters[k] := updated;
      assert semesters[..] == before[k := updated];
    }
    assert myAssessments[..|myAssessments|] == myAssessments;
    r := semesters[..];
  }

  /** `useSemestersList` with its inputs settled: build the merged semesters,
      then push every assessment record into place, in table order. */
  method UseSemestersList(
    studyPlan: Option<seq<ApiSemester>>,
    lpSemesters: Option<seq<LpSemester>>,
    modules: seq<Module>,
    assessmentTable: Option<seq<LpAssessment>>,
    now: int,
    loading: LoadingFlags,
    h: Helpers)
    returns (props: SemestersListProps)
    ensures props.semesters == ApplyAssessments(MergePlan(studyPlan, lpSemesters, modules, now, h), assessmentTable.GetOr([]), modules, h)
    ensures props.isLoading <==> loading.modules || loading.assessmentTable || loading.studyPlan || loading.semesters
  {
    var merged := MergePlan(studyPlan, lpSemesters, modules, now, h);
    var semesters := PushAssessments(merged, assessmentTable.GetOr([]), modules, h);
    props := SemestersListProps(
      semesters,
      loading.modules || loading.assessmentTable || loading.studyPlan || loading.semesters);
  }
}
