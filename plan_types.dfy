/** The view-model types shared by the plan merger and the semester card:
    catalogue modules, assessment outcomes, merged semesters and their four
    assessment categories. */
module PlanTypes {
  import opened Wrappers

  /** The four assessment categories of a semester. */
  datatype Category = Early | Standard | Alternative | Reassessment

  /** A catalogue module of the current scope. Plan entries and assessment
      records refer to it by `id`; the semester card compares modules by
      `moduleId`. */
  datatype Module = Module(
    id: string,
    moduleId: string,
    ects: int,
    allowEarlyAssessment: bool,
    allowAlternativeAssessment: bool)

  /** The realised assessment carried by a `Past` entry. */
  datatype Assessment = Assessment(
    proposedDate: Option<string>,
    id: string,
    published: bool,
    grade: Option<real>,
    passed: bool,
    level: int,
    url: string,
    date: Option<string>,
    assessorName: Option<string>,
    assessorUrl: string)

  /** One entry of a category list: a planned placement (no assessment yet)
      or a past, realised assessment. The semester card also copes with an
      entry whose module is absent, hence the `Option`; the source calls the
      field `module`, a reserved word here. */
  datatype SemesterModule =
    | Planned(id: string, catalogModule: Option<Module>)
    | Past(id: string, assessment: Assessment, catalogModule: Option<Module>)

  /** The four ordered category lists of a semester. The semester card reads
      the standard list under the name `standartAssessments` while the plan
      merger writes it as `standardAssessments`; the model has one list. */
  datatype SemesterModules = SemesterModules(
    earlyAssessments: seq<SemesterModule>,
    standardAssessments: seq<SemesterModule>,
    alternativeAssessments: seq<SemesterModule>,
    reassessments: seq<SemesterModule>)

  /** A merged semester. */
  datatype Semester = Semester(
    id: string,
    lpId: string,
    isActive: bool,
    canRegisterForEarlyAssessments: bool,
    canRegisterForStandardAssessments: bool,
    canRegisterForAlternativeAssessments: bool,
    canRegisterForReassessments: bool,
    title: string,
    modules: SemesterModules)

  function Entries(m: SemesterModules, c: Category): seq<SemesterModule>
  {
    match c
    case Early => m.earlyAssessments
    case Standard => m.standardAssessments
    case Alternative => m.alternativeAssessments
    case Reassessment => m.reassessments
  }

  /** `m` with the list of category `c` replaced by `list`. */
  function WithEntries(m: SemesterModules, c: Category, list: seq<SemesterModule>): (r: SemesterModules)
    ensures Entries(r, c) == list
    ensures forall c' :: c' != c ==> Entries(r, c') == Entries(m, c')
  {
    match c
    case Early => m.(earlyAssessments := list)
    case Standard => m.(standardAssessments := list)
    case Alternative => m.(alternativeAssessments := list)
    case Reassessment => m.(reassessments := list)
  }

  /** All entries of a semester, in the order of `Object.values(semester.modules)`. */
  function AllEntries(m: SemesterModules): seq<SemesterModule>
  {
    m.earlyAssessments + m.standardAssessments + m.alternativeAssessments + m.reassessments
  }

  /** The number of entries over the four lists. */
  function EntryCount(s: Semester): nat
  {
    |AllEntries(s.modules)|
  }
}
