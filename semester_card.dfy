/** The rules of one semester card (`SemesterCard`): its relative-time
    label, its credit total, and which of its droppables accept the module
    being dragged. */
module SemesterCard {
  import opened Wrappers
  import opened Text
  import opened PlanTypes
  import ModulesListSection

  // ---------------------------------------------------------------------
  // The relative-time label

  /** `n / 2` as JavaScript prints it for a non-negative integer `n`: the
      integral part, followed by `.5` when `n` is odd. */
  function HalfYears(n: nat): string
  {
    NatToString(n / 2) + (if n % 2 == 1 then ".5" else "")
  }

  function OffsetText(offset: int): (r: Option<string>)
    ensures r.Some?
  {
    if offset == 0 then Some("Current semester")
    else if offset == 1 then Some("Next semester")
    else if offset == -1 then Some("6 months ago")
    else if offset == 2 then Some("In 1 year")
    else if offset == -2 then Some("1 year ago")
    else if offset > 0 then Some("In " + HalfYears(offset) + " years")
    else Some(HalfYears(-offset) + " years ago")
  }

  lemma OffsetTextExamples()
    ensures OffsetText(0) == Some("Current semester")
    ensures OffsetText(3) == Some("In 1.5 years")
    ensures OffsetText(4) == Some("In 2 years")
  {
    assert NatToString(1) == "1" && NatToString(2) == "2";
    assert HalfYears(3) == "1" + ".5" == "1.5";
    assert HalfYears(4) == "2" + "" == "2";
    assert "In " + "1.5" + " years" == "In 1.5 years";
    assert "In " + "2" + " years" == "In 2 years";
  }

  /** The four offsets with a fixed label of their own. */
  lemma FixedOffsetTextExamples()
    ensures OffsetText(1) == Some("Next semester")
    ensures OffsetText(-1) == Some("6 months ago")
    ensures OffsetText(2) == Some("In 1 year")
    ensures OffsetText(-2) == Some("1 year ago")
  {
  }

  lemma PastOffsetTextExamples()
    ensures OffsetText(-5) == Some("2.5 years ago")
    ensures OffsetText(-24) == Some("12 years ago")
  {
    assert NatToString(2) == "2";
    assert NatToString(12) == NatToString(1) + ['2'] == "12";
    assert HalfYears(5) == "2" + ".5" == "2.5";
    assert HalfYears(24) == "12" + "" == "12";
    assert "2.5" + " years ago" == "2.5 years ago";
    assert "12" + " years ago" == "12 years ago";
  }

  /** Reads a `HalfYears` rendering back: digits, optionally followed by `.5`. */
  function ParseHalfYears(s: string): nat
  {
    if |s| >= 2 && s[|s| - 2..] == ".5" && AllDigits(s[..|s| - 2]) then 2 * DigitsValue(s[..|s| - 2]) + 1
    else if AllDigits(s) then 2 * DigitsValue(s)
    else 0
  }

  lemma HalfYearsRoundTrip(n: nat)
    ensures ParseHalfYears(HalfYears(n)) == n
  {
    var x := NatToString(n / 2);
    NatToStringRoundTrip(n / 2);
    var s := HalfYears(n);
    if n % 2 == 1 {
      assert s[..|s| - 2] == x;
      assert s[|s| - 2..] == ".5";
    } else {
      assert s == x;
      assert |s| >= 2 ==> IsDigit(s[|s| - 2]);
    }
  }

  lemma HalfYearsFirstIsDigit(n: nat)
    ensures |HalfYears(n)| > 0 && IsDigit(HalfYears(n)[0])
  {
    var x := NatToString(n / 2);
    assert HalfYears(n)[0] == x[0];
  }

  /** Reads a label back to the offset it was made for. */
  function ParseOffsetText(s: string): int
  {
    if |s| >= 10 && s[|s| - 10..] == " years ago" then -(ParseHalfYears(s[..|s| - 10]) as int)
    else if |s| >= 9 && s[..3] == "In " && s[|s| - 6..] == " years" then ParseHalfYears(s[3..|s| - 6])
    else if s == "Next semester" then 1
    else if s == "6 months ago" then -1
    else if s == "In 1 year" then 2
    else if s == "1 year ago" then -2
    else 0
  }

  /** How the parser sees a label `In x years`. */
  lemma FutureLabelShape(x: string)
    requires |x| > 0
    ensures var s := "In " + x + " years";
      && |s| >= 10 && s[|s| - 10..] != " years ago"
      && s[..3] == "In " && s[|s| - 6..] == " years" && s[3..|s| - 6] == x
  {
    var tail := x + " years";
    var s := "In " + tail;
    assert s == "In " + x + " years";
    assert s[|s| - 10..][9] == 's';
    assert s[..3] == "In " && s[3..] == tail;
    assert tail[|tail| - 6..] == " years" && tail[..|tail| - 6] == x;
    assert s[|s| - 6..] == tail[|tail| - 6..];
    assert s[3..|s| - 6] == tail[..|tail| - 6];
  }

  /** The labels of offsets beyond two semesters, read back. */
  lemma FutureLabelRoundTrip(n: nat)
    ensures ParseOffsetText("In " + HalfYears(n) + " years") == n
  {
    HalfYearsFirstIsDigit(n);
    FutureLabelShape(HalfYears(n));
    HalfYearsRoundTrip(n);
  }

  lemma PastLabelRoundTrip(n: nat)
    ensures ParseOffsetText(HalfYears(n) + " years ago") == -(n as int)
  {
    var x := HalfYears(n);
    var s := x + " years ago";
    HalfYearsRoundTrip(n);
    assert s[|s| - 10..] == " years ago" && s[..|s| - 10] == x;
  }

  /** The five fixed labels, read back, one lemma each. */
  lemma CurrentLabelRoundTrip()
    ensures ParseOffsetText("Current semester") == 0
  {
    var s := "Current semester";
    assert s[|s| - 1] == 'r' && s[0] == 'C';
  }

  lemma NextLabelRoundTrip()
    ensures ParseOffsetText("Next semester") == 1
  {
    var s := "Next semester";
    assert s[|s| - 1] == 'r' && s[0] == 'N';
  }

  lemma HalfYearAgoLabelRoundTrip()
    ensures ParseOffsetText("6 months ago") == -1
  {
    var s := "6 months ago";
    assert s[2] == 'm' && s[0] == '6';
  }

  lemma InOneYearLabelRoundTrip()
    ensures ParseOffsetText("In 1 year") == 2
  {
    var s := "In 1 year";
    assert s[3] == '1';
  }

  lemma OneYearAgoLabelRoundTrip()
    ensures ParseOffsetText("1 year ago") == -2
  {
    var s := "1 year ago";
    assert s[0] == '1';
  }

  lemma OffsetTextRoundTrip(n: int)
    ensures ParseOffsetText(OffsetText(n).value) == n
  {
    if n > 2 {
      FutureLabelRoundTrip(n);
    } else if n < -2 {
      PastLabelRoundTrip(-n);
    } else if n == 0 {
      CurrentLabelRoundTrip();
    } else if n == 1 {
      NextLabelRoundTrip();
    } else if n == -1 {
      HalfYearAgoLabelRoundTrip();
    } else if n == 2 {
      InOneYearLabelRoundTrip();
    } else {
      OneYearAgoLabelRoundTrip();
    }
  }

  /** Different offsets never get the same label. */
  lemma OffsetTextInjective(a: int, b: int)
    requires OffsetText(a) == OffsetText(b)
    ensures a == b
  {
    OffsetTextRoundTrip(a);
    OffsetTextRoundTrip(b);
  }

  // ---------------------------------------------------------------------
  // Card state derived from the props

  /** `offsetToCurrentSemester` defaults to 0 when absent. */
  function OffsetOrDefault(offsetToCurrentSemester: Option<int>): int
  {
    offsetToCurrentSemester.GetOr(0)
  }

  predicate IsPastSemester(offset: int)
  {
    offset < 0
  }

  predicate IsDragging(dragged: seq<Module>)
  {
    |dragged| > 0
  }

  predicate ShowActions(isHovered: bool, dragged: seq<Module>, offset: int)
  {
    isHovered && !IsDragging(dragged) && !IsPastSemester(offset)
  }

  // ---------------------------------------------------------------------
  // Credits

  /** What one entry adds to the card's total: nothing for a published,
      failed assessment or an entry whose module is unknown, its module's
      credits otherwise. */
  function EctsOf(e: SemesterModule): int
  {
    if (e.Past? && e.assessment.published && !e.assessment.passed) || e.catalogModule.None? then 0
    else e.catalogModule.value.ects
  }

  /** Left fold of `EctsOf` over `entries`, as `reduce` from 0. */
  function EctsSum(entries: seq<SemesterModule>): int
  {
    if entries == [] then 0 else EctsSum(entries[..|entries| - 1]) + EctsOf(entries[|entries| - 1])
  }

  function TotalEcts(s: Semester): int
  {
    EctsSum(AllEntries(s.modules))
  }

  lemma {:induction false} EctsSumConcat(a: seq<SemesterModule>, b: seq<SemesterModule>)
    ensures EctsSum(a + b) == EctsSum(a) + EctsSum(b)
    decreases |b|
  {
    if b == [] {
      assert a + b == a;
    } else {
      var b' := b[..|b| - 1];
      assert (a + b)[..|a + b| - 1] == a + b';
      EctsSumConcat(a, b');
    }
  }

  /** The total is the sum of the four lists' totals. */
  lemma TotalEctsBySection(s: Semester)
    ensures TotalEcts(s) == EctsSum(Entries(s.modules, Early)) + EctsSum(Entries(s.modules, Standard))
                          + EctsSum(Entries(s.modules, Alternative)) + EctsSum(Entries(s.modules, Reassessment))
  {
    var m := s.modules;
    EctsSumConcat(m.earlyAssessments, m.standardAssessments);
    EctsSumConcat(m.earlyAssessments + m.standardAssessments, m.alternativeAssessments);
    EctsSumConcat(m.earlyAssessments + m.standardAssessments + m.alternativeAssessments, m.reassessments);
  }

  /** With no module of negative credits, no total is negative. */
  lemma {:induction false} EctsSumNonNegative(entries: seq<SemesterModule>)
    requires forall i :: 0 <= i < |entries| && entries[i].catalogModule.Some? ==> entries[i].catalogModule.value.ects >= 0
    ensures EctsSum(entries) >= 0
    decreases |entries|
  {
    if entries != [] {
      EctsSumNonNegative(entries[..|entries| - 1]);
    }
  }

  // ---------------------------------------------------------------------
  // Duplicate checks and the drop rules

  /** `i.module?.moduleId`, absent for an entry with no module. */
  function EntryModuleId(e: SemesterModule): Option<string>
  {
    if e.catalogModule.Some? then Some(e.catalogModule.value.moduleId) else None
  }

  /** `draggedModules[0]?.moduleId`, absent when nothing is dragged. */
  function DraggedModuleId(dragged: seq<Module>): Option<string>
  {
    if |dragged| > 0 then Some(dragged[0].moduleId) else None
  }

  /** `entries.some(i => i.module?.moduleId === draggedModules[0]?.moduleId)`.
      Two absent ids compare equal, as `undefined === undefined` does. */
  function HasDraggedModule(entries: seq<SemesterModule>, dragged: seq<Module>): (b: bool)
    ensures b <==> exists i :: 0 <= i < |entries| && EntryModuleId(entries[i]) == DraggedModuleId(dragged)
  {
    if entries == [] then false
    else EntryModuleId(entries[0]) == DraggedModuleId(dragged) || HasDraggedModule(entries[1..], dragged)
  }

  /** The `disabled` prop of each category list of the card. */
  predicate SectionDisabled(s: Semester, c: Category, dragged: seq<Module>, offset: int)
  {
    var duplicate := HasDraggedModule(Entries(s.modules, c), dragged);
    match c
    case Early => (IsDragging(dragged) && !dragged[0].allowEarlyAssessment) || IsPastSemester(offset) || duplicate
    case Standard => IsPastSemester(offset) || duplicate
    case Alternative => (IsDragging(dragged) && !dragged[0].allowAlternativeAssessment) || IsPastSemester(offset) || duplicate
    case Reassessment => IsPastSemester(offset) || duplicate
  }

  /** The key a list is hovered under and the last part of its droppable id;
      the standard list is spelled `standartAssessments`. */
  function SectionKey(c: Category): string
  {
    match c
    case Early => "earlyAssessments"
    case Standard => "standartAssessments"
    case Alternative => "alternativeAssessments"
    case Reassessment => "reassessments"
  }

  const DroppablePrefix: string := "droppable:semester:"

  function DroppableId(semesterId: string, c: Category): string
  {
    DroppablePrefix + semesterId + ":" + SectionKey(c)
  }

  function HeaderDroppableId(semesterId: string): string
  {
    DroppableId(semesterId, Standard) + ":header"
  }

  function FooterDroppableId(semesterId: string): string
  {
    DroppableId(semesterId, Standard) + ":footer"
  }

  /** `isDropDisabled` of the header and of the footer droppable. */
  predicate HeaderDropDisabled(s: Semester, dragged: seq<Module>, offset: int)
  {
    IsPastSemester(offset) || HasDraggedModule(Entries(s.modules, Standard), dragged)
  }

  /** How the card renders the list of category `c`. */
  function CardSection(s: Semester, c: Category, dragged: seq<Module>, offsetToCurrentSemester: Option<int>,
                       hoveredSection: Option<string>, isHovered: bool): ModulesListSection.SectionView
  {
    var offset := OffsetOrDefault(offsetToCurrentSemester);
    ModulesListSection.Render(
      DroppableId(s.id, c),
      ModulesListSection.SectionProps(
        Entries(s.modules, c),
        Some(SectionDisabled(s, c, dragged, offset)),
        Some(ShowActions(isHovered, dragged, offset)),
        Some(hoveredSection == Some(SectionKey(c))),
        Some(IsDragging(dragged)),
        true))
  }

  /** A category list accepts the dragged module exactly when it is the
      hovered list, something is dragged, the semester is not past, the list
      does not already hold that module, and, for the early and the
      alternative list only, the module allows that kind of assessment. */
  lemma CardSectionAcceptsIff(s: Semester, c: Category, dragged: seq<Module>, offsetToCurrentSemester: Option<int>,
                              hoveredSection: Option<string>, isHovered: bool)
    ensures !CardSection(s, c, dragged, offsetToCurrentSemester, hoveredSection, isHovered).isDropDisabled
      <==> && hoveredSection == Some(SectionKey(c))
           && |dragged| > 0
           && OffsetOrDefault(offsetToCurrentSemester) >= 0
           && !HasDraggedModule(Entries(s.modules, c), dragged)
           && (c == Early ==> dragged[0].allowEarlyAssessment)
           && (c == Alternative ==> dragged[0].allowAlternativeAssessment)
  {
    var offset := OffsetOrDefault(offsetToCurrentSemester);
    ModulesListSection.AcceptsDropIff(DroppableId(s.id, c), ModulesListSection.SectionProps(
        Entries(s.modules, c),
        Some(SectionDisabled(s, c, dragged, offset)),
        Some(ShowActions(isHovered, dragged, offset)),
        Some(hoveredSection == Some(SectionKey(c))),
        Some(IsDragging(dragged)),
        true));
  }

  /** The standard and the reassessment lists ignore the capability flags. */
  lemma {:induction false} CapabilityFlagsIgnored(s: Semester, c: Category, d: Module, d': Module, rest: seq<Module>, offset: int)
    requires c == Standard || c == Reassessment
    requires d.moduleId == d'.moduleId
    ensures SectionDisabled(s, c, [d] + rest, offset) == SectionDisabled(s, c, [d'] + rest, offset)
  {
    assert DraggedModuleId([d] + rest) == DraggedModuleId([d'] + rest);
  }

  /** A past semester rejects every drop: all four lists, the header and the footer. */
  lemma PastSemesterRejectsAll(s: Semester, c: Category, dragged: seq<Module>, offsetToCurrentSemester: Option<int>,
                               hoveredSection: Option<string>, isHovered: bool)
    requires OffsetOrDefault(offsetToCurrentSemester) < 0
    ensures CardSection(s, c, dragged, offsetToCurrentSemester, hoveredSection, isHovered).isDropDisabled
    ensures HeaderDropDisabled(s, dragged, OffsetOrDefault(offsetToCurrentSemester))
  {
    CardSectionAcceptsIff(s, c, dragged, offsetToCurrentSemester, hoveredSection, isHovered);
  }

  /** The header, the footer and the standard list accept or reject alike;
      their drops all land in the standard list. */
  lemma HeaderFollowsStandard(s: Semester, dragged: seq<Module>, offset: int)
    ensures HeaderDropDisabled(s, dragged, offset) == SectionDisabled(s, Standard, dragged, offset)
  {
  }

  /** With nothing dragged, a list with an unresolved entry counts as
      holding the dragged module; with a module dragged, that entry does not
      match it. */
  lemma UnresolvedEntryDuplicate(entries: seq<SemesterModule>, i: nat, dragged: seq<Module>)
    requires i < |entries| && entries[i].catalogModule.None?
    ensures HasDraggedModule(entries, dragged) <== dragged == []
    ensures dragged != [] ==> EntryModuleId(entries[i]) != DraggedModuleId(dragged)
  {
    assert EntryModuleId(entries[i]) == DraggedModuleId(dragged) <== dragged == [];
  }

  lemma SectionKeyNoColon(c: Category)
    ensures forall i :: 0 <= i < |SectionKey(c)| ==> SectionKey(c)[i] != ':'
  {
  }

  /** Each category list of each semester has its own droppable id. */
  lemma DroppableIdInjective(id1: string, c1: Category, id2: string, c2: Category)
    requires DroppableId(id1, c1) == DroppableId(id2, c2)
    ensures id1 == id2 && c1 == c2
  {
    var s := DroppableId(id1, c1);
    var k1, k2 := SectionKey(c1), SectionKey(c2);
    var p := DroppablePrefix;
    assert s == p + id1 + ":" + k1 && s == p + id2 + ":" + k2;
    if |k1| == |k2| {
      assert k1 == s[|s| - |k1|..] == k2;
      assert c1 == c2;
      assert id1 == s[|p|..|s| - |k1| - 1] == id2;
    } else if |k1| < |k2| {
      assert s[|s| - |k1| - 1] == ':';
      assert s[|s| - |k1| - 1] == k2[|k2| - |k1| - 1];
      SectionKeyNoColon(c2);
    } else {
      assert s[|s| - |k2| - 1] == ':';
      assert s[|s| - |k2| - 1] == k1[|k1| - |k2| - 1];
      SectionKeyNoColon(c1);
    }
  }

  /** No header or footer id is the id of a category list. */
  lemma HeaderFooterIdsDistinct(id1: string, id2: string, c: Category)
    ensures HeaderDroppableId(id1) != DroppableId(id2, c)
    ensures FooterDroppableId(id1) != DroppableId(id2, c)
    ensures HeaderDroppableId(id1) != FooterDroppableId(id2)
  {
    var h, f, d := HeaderDroppableId(id1), FooterDroppableId(id2), DroppableId(id2, c);
    assert h[|h| - 1] == 'r' && f[|f| - 1] == 'r' && d[|d| - 1] == 's';
    assert h[|h| - 3] == 'd' && f[|f| - 3] == 't';
    var f1 := FooterDroppableId(id1);
    assert f1[|f1| - 1] == 'r';
  }
}
