/** The selection logic of the seeding script: which study programs,
    module handbooks, modules and compulsory-elective pairings it saves, in
    which order, and when it stops with an error. Every repository `save`
    is modelled as appending a row to the list the script keeps; generated
    row ids are modelled as the row's position in its list. */
module Seeding {
  import opened Wrappers
  import opened Text
  import opened HandbookName
  import opened ModuleMetaTable

  // ---------------------------------------------------------------------
  // Study-program abbreviations

  datatype StudyProgramAbbreviation = SE | ID | PM | DS | BM

  /** The learning-platform name each abbreviation is read from. */
  function ProgramName(a: StudyProgramAbbreviation): string
  {
    match a
    case SE => "BSc SE"
    case ID => "BA ID"
    case PM => "BA PM"
    case DS => "BA DS"
    case BM => "BA BM"
  }

  const AbbreviationError: string := "[getAbbreviation] failed to resolve study program abbreviation: "

  /** `getAbbreviation`: the five known names map to their abbreviation,
      every other name throws. */
  function GetAbbreviation(name: string): (r: Result<StudyProgramAbbreviation>)
    ensures r.Thrown? ==> r.message == AbbreviationError + name
  {
    if name == "BSc SE" then Ok(SE)
    else if name == "BA ID" then Ok(ID)
    else if name == "BA PM" then Ok(PM)
    else if name == "BA DS" then Ok(DS)
    else if name == "BA BM" then Ok(BM)
    else Thrown(AbbreviationError + name)
  }

  /** `GetAbbreviation` and `ProgramName` are inverse: each abbreviation's
      name maps back to it, and a name that maps to an abbreviation is that
      abbreviation's name. */
  lemma AbbreviationRoundTrip(a: StudyProgramAbbreviation, name: string)
    ensures GetAbbreviation(ProgramName(a)) == Ok(a)
    ensures GetAbbreviation(name).Ok? ==> ProgramName(GetAbbreviation(name).value) == name
  {
  }

  // ---------------------------------------------------------------------
  // Inputs from the learning platform and the saved rows

  datatype LpModuleHandbook = LpModuleHandbook(id: string, name: string)

  datatype LpStudyProgram = LpStudyProgram(
    id: string,
    name: string,
    abbreviation: string,
    moduleHandbooks: seq<LpModuleHandbook>)

  /** A fetched module; its identifier may be missing. */
  datatype LpModule = LpModule(id: string, moduleIdentifier: Option<string>)

  datatype StudyProgramRow = StudyProgramRow(lpId: string, abbreviation: StudyProgramAbbreviation)

  /** `studyProgramId` is the position of the program's row. */
  datatype ModuleHandbookRow = ModuleHandbookRow(lpId: string, studyProgramId: nat, name: string)

  datatype ModuleRow = ModuleRow(lpId: string, proficiency: nat, possiblyOutdated: bool, moduleIdentifier: string)

  /** `moduleHandbookId` is the position of the handbook's row. */
  datatype PairingRow = PairingRow(moduleHandbookId: nat, modules: seq<ModuleRow>)

  // ---------------------------------------------------------------------
  // Study programs and their handbooks

  predicate IsSkipped(p: LpStudyProgram)
  {
    Includes(p.abbreviation, "V4")
  }

  /** A program the loop gets past: skipped, or with a known abbreviation. */
  predicate IsAccepted(p: LpStudyProgram)
  {
    IsSkipped(p) || GetAbbreviation(p.abbreviation).Ok?
  }

  datatype ProgramsOutcome = ProgramsOutcome(
    programs: seq<StudyProgramRow>,
    handbooks: seq<ModuleHandbookRow>,
    error: Option<string>)

  function HandbookRows(hs: seq<LpModuleHandbook>, programId: nat): seq<ModuleHandbookRow>
  {
    if hs == [] then []
    else HandbookRows(hs[..|hs| - 1], programId) + [ModuleHandbookRow(hs[|hs| - 1].id, programId, hs[|hs| - 1].name)]
  }

  lemma {:induction false} HandbookRowsFacts(hs: seq<LpModuleHandbook>, programId: nat)
    ensures |HandbookRows(hs, programId)| == |hs|
    ensures forall k :: 0 <= k < |hs| ==> HandbookRows(hs, programId)[k] == ModuleHandbookRow(hs[k].id, programId, hs[k].name)
    decreases |hs|
  {
    if hs != [] {
      HandbookRowsFacts(hs[..|hs| - 1], programId);
    }
  }

  /** One pass of the program loop, after the earlier programs were saved. */
  function SaveProgram(o: ProgramsOutcome, p: LpStudyProgram): ProgramsOutcome
  {
    if IsSkipped(p) then o
    else match GetAbbreviation(p.abbreviation)
      case Thrown(message) => o.(error := Some(message))
      case Ok(a) =>
        ProgramsOutcome(o.programs + [StudyProgramRow(p.id, a)], o.handbooks + HandbookRows(p.moduleHandbooks, |o.programs|), None)
  }

  /** The program loop over `ps`, stopping at the first error. */
  function SavePrograms(ps: seq<LpStudyProgram>): ProgramsOutcome
  {
    if ps == [] then ProgramsOutcome([], [], None)
    else
      var o := SavePrograms(ps[..|ps| - 1]);
      if o.error.Some? then o else SaveProgram(o, ps[|ps| - 1])
  }

  lemma {:induction false} ProgramsStopAtError(ps: seq<LpStudyProgram>, k: nat)
    requires k <= |ps| && SavePrograms(ps[..k]).error.Some?
    ensures SavePrograms(ps) == SavePrograms(ps[..k])
    decreases |ps|
  {
    if k < |ps| {
      assert ps[..|ps| - 1][..k] == ps[..k];
      ProgramsStopAtError(ps[..|ps| - 1], k);
    } else {
      assert ps[..k] == ps;
    }
  }

  /** The first program the loop does not get past. */
  function FirstRejected(ps: seq<LpStudyProgram>): (r: Option<nat>)
    ensures r.Some? ==> r.value < |ps| && !IsAccepted(ps[r.value]) && forall j :: 0 <= j < r.value ==> IsAccepted(ps[j])
    ensures r.None? ==> forall j :: 0 <= j < |ps| ==> IsAccepted(ps[j])
  {
    if ps == [] then None
    else
      var prefix := ps[..|ps| - 1];
      var r := FirstRejected(prefix);
      assert forall j :: 0 <= j < |prefix| ==> prefix[j] == ps[j];
      if r.Some? then r
      else if !IsAccepted(ps[|ps| - 1]) then Some(|ps| - 1)
      else None
  }

  /** The program loop fails exactly at the first program that is neither
      skipped nor known, with that program's message. */
  lemma {:induction false} ProgramsError(ps: seq<LpStudyProgram>)
    ensures SavePrograms(ps).error ==
      (match FirstRejected(ps)
       case None => None
       case Some(i) => Some(AbbreviationError + ps[i].abbreviation))
    decreases |ps|
  {
    if ps != [] {
      var prefix := ps[..|ps| - 1];
      ProgramsError(prefix);
      assert FirstRejected(prefix).Some? ==> prefix[FirstRejected(prefix).value] == ps[FirstRejected(prefix).value];
    }
  }

  /** The programs the loop saves when it gets through: those without "V4". */
  function Kept(ps: seq<LpStudyProgram>): seq<LpStudyProgram>
  {
    if ps == [] then []
    else Kept(ps[..|ps| - 1]) + (if IsSkipped(ps[|ps| - 1]) then [] else [ps[|ps| - 1]])
  }

  function HandbookCount(ps: seq<LpStudyProgram>): nat
  {
    if ps == [] then 0 else HandbookCount(ps[..|ps| - 1]) + |ps[|ps| - 1].moduleHandbooks|
  }

  /** The handbook rows of the kept programs: the handbooks of each program
      in order, linked to that program's position. */
  function AllHandbookRows(kept: seq<LpStudyProgram>): seq<ModuleHandbookRow>
  {
    if kept == [] then []
    else AllHandbookRows(kept[..|kept| - 1]) + HandbookRows(kept[|kept| - 1].moduleHandbooks, |kept| - 1)
  }

  lemma {:induction false} AllHandbookRowsCount(kept: seq<LpStudyProgram>)
    ensures |AllHandbookRows(kept)| == HandbookCount(kept)
    decreases |kept|
  {
    if kept != [] {
      AllHandbookRowsCount(kept[..|kept| - 1]);
      HandbookRowsFacts(kept[|kept| - 1].moduleHandbooks, |kept| - 1);
    }
  }

  /** The `k`-th handbook of the `i`-th kept program is saved right after
      the handbooks of the programs before it, linked to row `i`. */
  lemma {:induction false} AllHandbookRowsAt(kept: seq<LpStudyProgram>, i: nat, k: nat)
    requires i < |kept| && k < |kept[i].moduleHandbooks|
    ensures HandbookCount(kept[..i]) + k < |AllHandbookRows(kept)|
    ensures AllHandbookRows(kept)[HandbookCount(kept[..i]) + k]
         == ModuleHandbookRow(kept[i].moduleHandbooks[k].id, i, kept[i].moduleHandbooks[k].name)
    decreases |kept|
  {
    var prefix, last := kept[..|kept| - 1], kept[|kept| - 1];
    var rows := HandbookRows(last.moduleHandbooks, |kept| - 1);
    assert AllHandbookRows(kept) == AllHandbookRows(prefix) + rows;
    AllHandbookRowsCount(prefix);
    HandbookRowsFacts(last.moduleHandbooks, |kept| - 1);
    if i == |kept| - 1 {
      assert kept[..i] == prefix;
    } else {
      assert prefix[..i] == kept[..i] && prefix[i] == kept[i];
      AllHandbookRowsAt(prefix, i, k);
      HandbookCountSplit(prefix, i);
      HandbookCountPositive(prefix[i..]);
    }
  }

  lemma {:induction false} HandbookCountSplit(ps: seq<LpStudyProgram>, i: nat)
    requires i <= |ps|
    ensures HandbookCount(ps) == HandbookCount(ps[..i]) + HandbookCount(ps[i..])
    decreases |ps|
  {
    if i < |ps| {
      var prefix := ps[..|ps| - 1];
      assert prefix[..i] == ps[..i];
      assert ps[i..][..|ps[i..]| - 1] == prefix[i..];
      HandbookCountSplit(prefix, i);
    } else {
      assert ps[..i] == ps && ps[i..] == [];
    }
  }

  /** A nonempty list of programs counts at least the first one's handbooks. */
  lemma {:induction false} HandbookCountPositive(ps: seq<LpStudyProgram>)
    requires |ps| > 0
    ensures HandbookCount(ps) >= |ps[0].moduleHandbooks|
    decreases |ps|
  {
    if |ps| > 1 {
      assert ps[..|ps| - 1][0] == ps[0];
      HandbookCountPositive(ps[..|ps| - 1]);
    }
  }

  /** Without an error, every kept program yields one program row, with its
      id and abbreviation, and one handbook row per handbook, in order, with
      the handbook's id and name and linked to that program's row. */
  lemma {:induction false} ProgramsSaved(ps: seq<LpStudyProgram>)
    requires SavePrograms(ps).error.None?
    ensures var o := SavePrograms(ps);
      && |o.programs| == |Kept(ps)|
      && |o.handbooks| == HandbookCount(Kept(ps))
      && o.handbooks == AllHandbookRows(Kept(ps))
      && forall i :: 0 <= i < |o.programs| ==>
           o.programs[i].lpId == Kept(ps)[i].id && GetAbbreviation(Kept(ps)[i].abbreviation) == Ok(o.programs[i].abbreviation)
    decreases |ps|
  {
    if ps != [] {
      var prefix, p := ps[..|ps| - 1], ps[|ps| - 1];
      var o, o' := SavePrograms(prefix), SavePrograms(ps);
      assert o.error.None?;
      ProgramsSaved(prefix);
      if IsSkipped(p) {
        assert o' == o && Kept(ps) == Kept(prefix);
      } else {
        var a := GetAbbreviation(p.abbreviation);
        assert a.Ok?;
        HandbookRowsFacts(p.moduleHandbooks, |o.programs|);
        var kept := Kept(ps);
        assert kept == Kept(prefix) + [p];
        assert kept[..|kept| - 1] == Kept(prefix);
        assert HandbookCount(kept) == HandbookCount(Kept(prefix)) + |p.moduleHandbooks|;
        assert AllHandbookRows(kept) == AllHandbookRows(Kept(prefix)) + HandbookRows(p.moduleHandbooks, |Kept(prefix)|);
        assert o'.programs == o.programs + [StudyProgramRow(p.id, a.value)];
        assert o'.handbooks == o.handbooks + HandbookRows(p.moduleHandbooks, |o.programs|);
      }
    }
  }

  /** Every handbook row links to a saved program, and the rows of one
      program come together, in program order. */
  predicate Linked(o: ProgramsOutcome)
  {
    && (forall k :: 0 <= k < |o.handbooks| ==> o.handbooks[k].studyProgramId < |o.programs|)
    && (forall k, l :: 0 <= k < l < |o.handbooks| ==> o.handbooks[k].studyProgramId <= o.handbooks[l].studyProgramId)
  }

  lemma {:induction false} HandbooksLinked(ps: seq<LpStudyProgram>)
    ensures Linked(SavePrograms(ps))
    decreases |ps|
  {
    if ps != [] {
      var prefix, p := ps[..|ps| - 1], ps[|ps| - 1];
      var o, o' := SavePrograms(prefix), SavePrograms(ps);
      HandbooksLinked(prefix);
      if o.error.None? && !IsSkipped(p) && GetAbbreviation(p.abbreviation).Ok? {
        var added := HandbookRows(p.moduleHandbooks, |o.programs|);
        HandbookRowsFacts(p.moduleHandbooks, |o.programs|);
        assert o'.handbooks == o.handbooks + added && |o'.programs| == |o.programs| + 1;
        forall k | 0 <= k < |o'.handbooks|
          ensures o'.handbooks[k].studyProgramId <= |o.programs|
          ensures k >= |o.handbooks| ==> o'.handbooks[k].studyProgramId == |o.programs|
        {
          if k < |o.handbooks| {
            assert o'.handbooks[k] == o.handbooks[k];
          } else {
            assert o'.handbooks[k] == added[k - |o.handbooks|];
          }
        }
        forall k, l | 0 <= k < l < |o'.handbooks|
          ensures o'.handbooks[k].studyProgramId <= o'.handbooks[l].studyProgramId
        {
          if l < |o.handbooks| {
            assert o'.handbooks[k] == o.handbooks[k] && o'.handbooks[l] == o.handbooks[l];
          } else if k < |o.handbooks| {
            assert o'.handbooks[k] == o.handbooks[k];
          }
        }
      } else {
        assert o'.handbooks == o.handbooks && o'.programs == o.programs;
      }
    }
  }

  method SaveStudyPrograms(studyPrograms: seq<LpStudyProgram>)
    returns (programs: seq<StudyProgramRow>, handbooks: seq<ModuleHandbookRow>, error: Option<string>)
    ensures ProgramsOutcome(programs, handbooks, error) == SavePrograms(studyPrograms)
  {
    programs, handbooks, error := [], [], None;
    for i := 0 to |studyPrograms|
      invariant error.None? && ProgramsOutcome(programs, handbooks, None) == SavePrograms(studyPrograms[..i])
    {
      var p := studyPrograms[i];
      assert studyPrograms[..i + 1][..i] == studyPrograms[..i];
      if Includes(p.abbreviation, "V4") {
        continue;
      }
      var abbreviation := GetAbbreviation(p.abbreviation);
      if abbreviation.Thrown? {
        error := Some(abbreviation.message);
        ProgramsStopAtError(studyPrograms, i + 1);
        return;
      }
      var programId := |programs|;
      programs := programs + [StudyProgramRow(p.id, abbreviation.value)];
      ghost var before := handbooks;
      for j := 0 to |p.moduleHandbooks|
        invariant handbooks == before + HandbookRows(p.moduleHandbooks[..j], programId)
      {
        var handbook := p.moduleHandbooks[j];
        assert p.moduleHandbooks[..j + 1][..j] == p.moduleHandbooks[..j];
        handbooks := handbooks + [ModuleHandbookRow(handbook.id, programId, handbook.name)];
      }
      assert p.moduleHandbooks[..|p.moduleHandbooks|] == p.moduleHandbooks;
    }
    assert studyPrograms[..|studyPrograms|] == studyPrograms;
  }

  // ---------------------------------------------------------------------
  // Modules

  /** The row a fetched module is saved as, when its identifier is known. */
  function ModuleRowOf(m: LpModule): Option<ModuleRow>
  {
    if m.moduleIdentifier.Some? && m.moduleIdentifier.value in ModuleMeta then
      Some(ModuleRow(m.id, ModuleMeta[m.moduleIdentifier.value], false, m.moduleIdentifier.value))
    else None
  }

  /** The module loop over `ms`. */
  function SaveModulesOf(ms: seq<LpModule>): seq<ModuleRow>
  {
    if ms == [] then []
    else
      var m := ms[|ms| - 1];
      SaveModulesOf(ms[..|ms| - 1]) + (if ModuleRowOf(m).Some? then [ModuleRowOf(m).value] else [])
  }

  /** Saved modules are exactly the rows of the fetched modules with a known
      identifier, each with that identifier's proficiency and not marked
      possibly outdated. */
  lemma {:induction false} SavedModulesAreKnown(ms: seq<LpModule>)
    ensures forall r :: r in SaveModulesOf(ms) <==> exists i :: 0 <= i < |ms| && ModuleRowOf(ms[i]) == Some(r)
    ensures forall r :: r in SaveModulesOf(ms) ==>
      r.moduleIdentifier in ModuleMeta && r.proficiency == ModuleMeta[r.moduleIdentifier] && !r.possiblyOutdated
    decreases |ms|
  {
    if ms != [] {
      var prefix := ms[..|ms| - 1];
      SavedModulesAreKnown(prefix);
      forall r | exists i :: 0 <= i < |ms| && ModuleRowOf(ms[i]) == Some(r)
        ensures r in SaveModulesOf(ms)
      {
        var i :| 0 <= i < |ms| && ModuleRowOf(ms[i]) == Some(r);
        if i < |ms| - 1 {
          assert ms[i] == prefix[i];
        }
      }
      forall r | r in SaveModulesOf(ms)
        ensures exists i :: 0 <= i < |ms| && ModuleRowOf(ms[i]) == Some(r)
      {
        if r in SaveModulesOf(prefix) {
          var i :| 0 <= i < |prefix| && ModuleRowOf(prefix[i]) == Some(r);
          assert ms[i] == prefix[i];
        } else {
          assert ModuleRowOf(ms[|ms| - 1]) == Some(r);
        }
      }
    }
  }

  /** Saved order follows fetch order: the rows of a longer fetch are the
      rows of its first part followed by those of the rest. */
  lemma {:induction false} SaveModulesConcat(a: seq<LpModule>, b: seq<LpModule>)
    ensures SaveModulesOf(a + b) == SaveModulesOf(a) + SaveModulesOf(b)
    decreases |b|
  {
    if b == [] {
      assert a + b == a;
    } else {
      assert (a + b)[..|a + b| - 1] == a + b[..|b| - 1];
      SaveModulesConcat(a, b[..|b| - 1]);
    }
  }

  method SaveModules(fetched: seq<LpModule>) returns (saved: seq<ModuleRow>)
    ensures saved == SaveModulesOf(fetched)
  {
    saved := [];
    for i := 0 to |fetched|
      invariant saved == SaveModulesOf(fetched[..i])
    {
      var m := fetched[i];
      assert fetched[..i + 1][..i] == fetched[..i];
      if m.moduleIdentifier.Some? && m.moduleIdentifier.value in ModuleMeta {
        var proficiency := ModuleMeta[m.moduleIdentifier.value];
        saved := saved + [ModuleRow(m.id, proficiency, false, m.moduleIdentifier.value)];
      }
    }
    assert fetched[..|fetched|] == fetched;
  }

  // ---------------------------------------------------------------------
  // Compulsory-elective pairings

  datatype Pairing = Pairing(department: string, handbookVersions: seq<nat>, modules: seq<string>)

  /** `compulsoryElectivePairings`. */
  const CompulsoryElectivePairings: seq<Pairing> := [
    Pairing("SE", [2, 3], ["SE_05", "SE_06"]),
    Pairing("SE", [2], ["IS_01", "IS_02"]),
    Pairing("SE", [3], ["PM_24", "PM_27", "PM_28"])]

  /** Every module a pairing names is one the table knows, so each can be
      among the saved modules. */
  lemma PairingModulesKnown()
    ensures forall p :: p in CompulsoryElectivePairings ==> forall id :: id in p.modules ==> id in ModuleMeta
  {
    forall p, id | p in CompulsoryElectivePairings && id in p.modules
      ensures id in ModuleMeta
    {
      PairingIdentifierKnown(id);
    }
  }

  lemma PairingIdentifierKnown(id: string)
    requires id in ["SE_05", "SE_06", "IS_01", "IS_02", "PM_24", "PM_27", "PM_28"]
    ensures id in ModuleMeta
  {
  }

  /** One pass of the inner pairing loop: a pairing and one of its versions. */
  datatype Task = Task(pairing: Pairing, version: nat)

  function TasksOf(p: Pairing, vs: seq<nat>): (r: seq<Task>)
    ensures |r| == |vs|
    ensures forall k :: 0 <= k < |vs| ==> r[k] == Task(p, vs[k])
  {
    if vs == [] then [] else TasksOf(p, vs[..|vs| - 1]) + [Task(p, vs[|vs| - 1])]
  }

  /** The passes of the nested pairing loops, in order. */
  function Tasks(ps: seq<Pairing>): seq<Task>
  {
    if ps == [] then [] else Tasks(ps[..|ps| - 1]) + TasksOf(ps[|ps| - 1], ps[|ps| - 1].handbookVersions)
  }

  function VersionCount(ps: seq<Pairing>): nat
  {
    if ps == [] then 0 else VersionCount(ps[..|ps| - 1]) + |ps[|ps| - 1].handbookVersions|
  }

  lemma {:induction false} TasksCount(ps: seq<Pairing>)
    ensures |Tasks(ps)| == VersionCount(ps)
    decreases |ps|
  {
    if ps != [] {
      TasksCount(ps[..|ps| - 1]);
    }
  }

  lemma {:induction false} TasksConcat(a: seq<Pairing>, b: seq<Pairing>)
    ensures Tasks(a + b) == Tasks(a) + Tasks(b)
    decreases |b|
  {
    if b == [] {
      assert a + b == a;
    } else {
      var b', last := b[..|b| - 1], b[|b| - 1];
      var tail := TasksOf(last, last.handbookVersions);
      assert (a + b)[..|a + b| - 1] == a + b' && (a + b)[|a + b| - 1] == last;
      TasksConcat(a, b');
      assert Tasks(a + b) == Tasks(a + b') + tail;
      assert Tasks(b) == Tasks(b') + tail;
      SeqAssoc(Tasks(a), Tasks(b'), tail);
    }
  }

  lemma SeqAssoc<T>(x: seq<T>, y: seq<T>, z: seq<T>)
    ensures (x + y) + z == x + (y + z)
  {
  }

  /** The first saved handbook whose name is found for `department` and
      `version`, at or after position `from` (`savedModuleHandbooks.find`). */
  function FindHandbook(hs: seq<ModuleHandbookRow>, department: string, version: nat, from: nat): (r: Option<nat>)
    requires from <= |hs|
    ensures r.Some? ==> from <= r.value < |hs| && HandbookMatches(hs[r.value].name, department, version)
    ensures r.Some? ==> forall j :: from <= j < r.value ==> !HandbookMatches(hs[j].name, department, version)
    ensures r.None? ==> forall j :: from <= j < |hs| ==> !HandbookMatches(hs[j].name, department, version)
    decreases |hs| - from
  {
    if from == |hs| then None
    else if HandbookMatches(hs[from].name, department, version) then Some(from)
    else FindHandbook(hs, department, version, from + 1)
  }

  /** `savedModules.filter(i => pairing.modules.includes(i.moduleIdentifier))`. */
  function PairingModules(saved: seq<ModuleRow>, identifiers: seq<string>): (r: seq<ModuleRow>)
    ensures forall x :: x in r <==> x in saved && x.moduleIdentifier in identifiers
    ensures |r| <= |saved|
  {
    if saved == [] then []
    else
      var last := saved[|saved| - 1];
      PairingModules(saved[..|saved| - 1], identifiers) + (if last.moduleIdentifier in identifiers then [last] else [])
  }

  /** The filter keeps saved order: filtering a concatenation is filtering
      each part. */
  lemma {:induction false} PairingModulesConcat(a: seq<ModuleRow>, b: seq<ModuleRow>, identifiers: seq<string>)
    ensures PairingModules(a + b, identifiers) == PairingModules(a, identifiers) + PairingModules(b, identifiers)
    decreases |b|
  {
    if b == [] {
      assert a + b == a;
    } else {
      var b', last := b[..|b| - 1], b[|b| - 1];
      assert (a + b)[..|a + b| - 1] == a + b' && (a + b)[|a + b| - 1] == last;
      PairingModulesConcat(a, b', identifiers);
      var tail := if last.moduleIdentifier in identifiers then [last] else [];
      SeqAssoc(PairingModules(a, identifiers), PairingModules(b', identifiers), tail);
    }
  }

  const PairingError: string := "failed to find handbook for compulsory elective pairing: "

  function PairingMessage(t: Task): string
  {
    PairingError + t.pairing.department + " v" + NatToString(t.version)
  }

  datatype PairingsOutcome = PairingsOutcome(rows: seq<PairingRow>, error: Option<string>)

  function ExpandTask(o: PairingsOutcome, t: Task, hs: seq<ModuleHandbookRow>, modules: seq<ModuleRow>): PairingsOutcome
  {
    match FindHandbook(hs, t.pairing.department, t.version, 0)
    case None => o.(error := Some(PairingMessage(t)))
    case Some(h) => PairingsOutcome(o.rows + [PairingRow(h, PairingModules(modules, t.pairing.modules))], None)
  }

  /** The pairing loops over the passes `ts`, stopping at the first error. */
  function Expand(ts: seq<Task>, hs: seq<ModuleHandbookRow>, modules: seq<ModuleRow>): PairingsOutcome
  {
    if ts == [] then PairingsOutcome([], None)
    else
      var o := Expand(ts[..|ts| - 1], hs, modules);
      if o.error.Some? then o else ExpandTask(o, ts[|ts| - 1], hs, modules)
  }

  lemma {:induction false} ExpandStopsAtError(ts: seq<Task>, more: seq<Task>, hs: seq<ModuleHandbookRow>, modules: seq<ModuleRow>)
    requires Expand(ts, hs, modules).error.Some?
    ensures Expand(ts + more, hs, modules) == Expand(ts, hs, modules)
    decreases |more|
  {
    if more == [] {
      assert ts + more == ts;
    } else {
      assert (ts + more)[..|ts + more| - 1] == ts + more[..|more| - 1];
      ExpandStopsAtError(ts, more[..|more| - 1], hs, modules);
    }
  }

  predicate HasHandbook(t: Task, hs: seq<ModuleHandbookRow>)
  {
    FindHandbook(hs, t.pairing.department, t.version, 0).Some?
  }

  /** The pairing loops get through exactly when every pass finds a
      handbook; then each pass yields exactly one row, in order, linking the
      first matching handbook with the pairing's saved modules. */
  lemma {:induction false} ExpandResult(ts: seq<Task>, hs: seq<ModuleHandbookRow>, modules: seq<ModuleRow>)
    ensures Expand(ts, hs, modules).error.None? <==> forall k :: 0 <= k < |ts| ==> HasHandbook(ts[k], hs)
    ensures Expand(ts, hs, modules).error.None? ==>
      var rows := Expand(ts, hs, modules).rows;
      && |rows| == |ts|
      && forall k :: 0 <= k < |ts| ==>
           rows[k] == PairingRow(FindHandbook(hs, ts[k].pairing.department, ts[k].version, 0).value,
                                 PairingModules(modules, ts[k].pairing.modules))
    decreases |ts|
  {
    if ts != [] {
      var prefix := ts[..|ts| - 1];
      ExpandResult(prefix, hs, modules);
      forall k | 0 <= k < |prefix|
        ensures prefix[k] == ts[k]
      {
      }
    }
  }

  /** When a pass finds no handbook, the error names the pairing's
      department and the version. */
  lemma {:induction false} ExpandErrorMessage(ts: seq<Task>, hs: seq<ModuleHandbookRow>, modules: seq<ModuleRow>)
    ensures Expand(ts, hs, modules).error.Some? ==>
      exists k :: 0 <= k < |ts| && !HasHandbook(ts[k], hs) && Expand(ts, hs, modules).error == Some(PairingMessage(ts[k]))
    decreases |ts|
  {
    if ts != [] {
      var prefix := ts[..|ts| - 1];
      ExpandErrorMessage(prefix, hs, modules);
      if Expand(prefix, hs, modules).error.Some? {
        var k :| 0 <= k < |prefix| && !HasHandbook(prefix[k], hs) && Expand(prefix, hs, modules).error == Some(PairingMessage(prefix[k]));
        assert ts[k] == prefix[k];
      }
    }
  }

  method ExpandPairings(pairings: seq<Pairing>, handbooks: seq<ModuleHandbookRow>, modules: seq<ModuleRow>)
    returns (rows: seq<PairingRow>, error: Option<string>)
    ensures PairingsOutcome(rows, error) == Expand(Tasks(pairings), handbooks, modules)
  {
    rows, error := [], None;
    for i := 0 to |pairings|
      invariant error.None? && PairingsOutcome(rows, None) == Expand(Tasks(pairings[..i]), handbooks, modules)
    {
      var pairing := pairings[i];
      var versions := pairing.handbookVersions;
      ghost var done := Tasks(pairings[..i]);
      assert versions[..0] == [] && done + TasksOf(pairing, versions[..0]) == done;
      for j := 0 to |versions|
        invariant PairingsOutcome(rows, None) == Expand(done + TasksOf(pairing, versions[..j]), handbooks, modules)
      {
        var version := versions[j];
        ghost var ts := done + TasksOf(pairing, versions[..j]);
        TasksOfOneMore(pairing, versions, j);
        assert done + TasksOf(pairing, versions[..j + 1]) == ts + [Task(pairing, version)];
        ExpandOneMore(ts, Task(pairing, version), handbooks, modules);
        var handbook := FindHandbook(handbooks, pairing.department, version, 0);
        var selected := PairingModules(modules, pairing.modules);
        if handbook.None? {
          error := Some(PairingError + pairing.department + " v" + NatToString(version));
          PairingsRemainder(pairings, i, j);
          ExpandStopsAtError(ts + [Task(pairing, version)], TasksOf(pairing, versions[j + 1..]) + Tasks(pairings[i + 1..]), handbooks, modules);
          return;
        }
        rows := rows + [PairingRow(handbook.value, selected)];
      }
      assert versions[..|versions|] == versions;
      TasksOneMore(pairings, i);
    }
    assert pairings[..|pairings|] == pairings;
  }

  /** One more pass, after passes without an error. */
  lemma ExpandOneMore(ts: seq<Task>, t: Task, hs: seq<ModuleHandbookRow>, modules: seq<ModuleRow>)
    requires Expand(ts, hs, modules).error.None?
    ensures Expand(ts + [t], hs, modules) == ExpandTask(Expand(ts, hs, modules), t, hs, modules)
  {
    assert (ts + [t])[..|ts|] == ts;
  }

  lemma TasksOfOneMore(p: Pairing, vs: seq<nat>, j: nat)
    requires j < |vs|
    ensures TasksOf(p, vs[..j + 1]) == TasksOf(p, vs[..j]) + [Task(p, vs[j])]
  {
    assert vs[..j + 1][..j] == vs[..j];
  }

  lemma TasksOneMore(ps: seq<Pairing>, i: nat)
    requires i < |ps|
    ensures Tasks(ps[..i + 1]) == Tasks(ps[..i]) + TasksOf(ps[i], ps[i].handbookVersions)
  {
    assert ps[..i + 1][..i] == ps[..i];
  }

  lemma {:induction false} TasksOfConcat(p: Pairing, a: seq<nat>, b: seq<nat>)
    ensures TasksOf(p, a + b) == TasksOf(p, a) + TasksOf(p, b)
  {
  }

  /** The passes of the nested loops, split after pairing `i`. */
  lemma PairingsSplit(pairings: seq<Pairing>, i: nat)
    requires i < |pairings|
    ensures Tasks(pairings) == Tasks(pairings[..i]) + TasksOf(pairings[i], pairings[i].handbookVersions) + Tasks(pairings[i + 1..])
  {
    var a, b := pairings[..i + 1], pairings[i + 1..];
    assert pairings == a + b;
    TasksConcat(a, b);
    TasksOneMore(pairings, i);
  }

  /** The passes of one pairing, split after version `j`. */
  lemma VersionsSplit(p: Pairing, vs: seq<nat>, j: nat)
    requires j < |vs|
    ensures TasksOf(p, vs) == TasksOf(p, vs[..j]) + [Task(p, vs[j])] + TasksOf(p, vs[j + 1..])
  {
    assert vs == vs[..j + 1] + vs[j + 1..];
    TasksOfConcat(p, vs[..j + 1], vs[j + 1..]);
    assert vs[..j + 1][..j] == vs[..j];
  }

  /** The passes of the nested loops, split at pass `j` of pairing `i`. */
  lemma PairingsRemainder(pairings: seq<Pairing>, i: nat, j: nat)
    requires i < |pairings| && j < |pairings[i].handbookVersions|
    ensures var vs := pairings[i].handbookVersions;
      Tasks(pairings) == Tasks(pairings[..i]) + TasksOf(pairings[i], vs[..j]) + [Task(pairings[i], vs[j])]
                         + (TasksOf(pairings[i], vs[j + 1..]) + Tasks(pairings[i + 1..]))
  {
    var p, vs := pairings[i], pairings[i].handbookVersions;
    PairingsSplit(pairings, i);
    VersionsSplit(p, vs, j);
    SeqRegroup(Tasks(pairings[..i]), TasksOf(p, vs[..j]), [Task(p, vs[j])], TasksOf(p, vs[j + 1..]), Tasks(pairings[i + 1..]));
  }

  lemma SeqRegroup<T>(a: seq<T>, b: seq<T>, m: seq<T>, c: seq<T>, d: seq<T>)
    ensures a + (b + m + c) + d == a + b + m + (c + d)
  {
  }

  /** The passes the script's own pairing table makes: four, in this order. */
  lemma CompulsoryElectiveTasks()
    ensures Tasks(CompulsoryElectivePairings) == [
      Task(CompulsoryElectivePairings[0], 2), Task(CompulsoryElectivePairings[0], 3),
      Task(CompulsoryElectivePairings[1], 2), Task(CompulsoryElectivePairings[2], 3)]
    ensures VersionCount(CompulsoryElectivePairings) == 4
  {
    var ps := CompulsoryElectivePairings;
    TasksOneMore(ps, 0);
    TasksOneMore(ps, 1);
    TasksOneMore(ps, 2);
    assert ps[..0] == [] && ps[..3] == ps;
    assert TasksOf(ps[0], [2, 3]) == [Task(ps[0], 2), Task(ps[0], 3)];
    TasksCount(ps);
  }

  // ---------------------------------------------------------------------
  // The whole script

  datatype Saved = Saved(
    studyPrograms: seq<StudyProgramRow>,
    moduleHandbooks: seq<ModuleHandbookRow>,
    modules: seq<ModuleRow>,
    pairings: seq<PairingRow>)

  /** The rows saved when the script ends, and the error it ends with. */
  datatype SeedOutcome = SeedOutcome(saved: Saved, error: Option<string>)

  /** The three loops of the script in sequence; an error in the program
      loop ends the script before the module loop. */
  function SeedRun(studyPrograms: seq<LpStudyProgram>, fetched: seq<LpModule>, pairings: seq<Pairing>): SeedOutcome
  {
    var p := SavePrograms(studyPrograms);
    if p.error.Some? then SeedOutcome(Saved(p.programs, p.handbooks, [], []), p.error)
    else
      var modules := SaveModulesOf(fetched);
      var e := Expand(Tasks(pairings), p.handbooks, modules);
      SeedOutcome(Saved(p.programs, p.handbooks, modules, e.rows), e.error)
  }

  method Seed(studyPrograms: seq<LpStudyProgram>, fetched: seq<LpModule>) returns (saved: Saved, error: Option<string>)
    ensures SeedOutcome(saved, error) == SeedRun(studyPrograms, fetched, CompulsoryElectivePairings)
  {
    var programs, handbooks, programError := SaveStudyPrograms(studyPrograms);
    if programError.Some? {
      return Saved(programs, handbooks, [], []), programError;
    }
    var modules := SaveModules(fetched);
    var rows, pairingError := ExpandPairings(CompulsoryElectivePairings, handbooks, modules);
    saved, error := Saved(programs, handbooks, modules, rows), pairingError;
  }

  /** The script gets through exactly when every program is skipped or
      known and each of the four pairing passes finds a handbook among the
      saved ones; it then saves four pairing rows. */
  lemma SeedSucceeds(studyPrograms: seq<LpStudyProgram>, fetched: seq<LpModule>)
    ensures var o := SeedRun(studyPrograms, fetched, CompulsoryElectivePairings);
      o.error.None? <==>
        && (forall i :: 0 <= i < |studyPrograms| ==> IsAccepted(studyPrograms[i]))
        && (forall k :: 0 <= k < |Tasks(CompulsoryElectivePairings)| ==> HasHandbook(Tasks(CompulsoryElectivePairings)[k], SavePrograms(studyPrograms).handbooks))
    ensures var o := SeedRun(studyPrograms, fetched, CompulsoryElectivePairings);
      o.error.None? ==> |o.saved.pairings| == 4
  {
    ProgramsError(studyPrograms);
    CompulsoryElectiveTasks();
    var p := SavePrograms(studyPrograms);
    ExpandResult(Tasks(CompulsoryElectivePairings), p.handbooks, SaveModulesOf(fetched));
  }
}
