/** Reading a module handbook's name the way the seeding script does, with
    the regular expression `(BA|BSc)_(SE|ID|PM)_v(\d+)` and `String.match`
    (no global flag): the leftmost match, with its three groups. */
module HandbookName {
  import opened Wrappers
  import opened Text

  /** The array `match` returns: the whole match and the three groups. */
  datatype NameMatch = NameMatch(fullName: string, degree: string, department: string, version: string)

  /** Length of the longest run of digits of `s` starting at `k`. */
  function DigitRun(s: string, k: nat): (n: nat)
    requires k <= |s|
    ensures k + n <= |s|
    ensures AllDigits(s[k..k + n])
    ensures k + n == |s| || !IsDigit(s[k + n])
    decreases |s| - k
  {
    if k < |s| && IsDigit(s[k]) then
      var n := 1 + DigitRun(s, k + 1);
      assert s[k..k + n] == [s[k]] + s[k + 1..k + n];
      n
    else 0
  }

  lemma {:induction false} DigitRunIs(s: string, k: nat, n: nat)
    requires k + n <= |s|
    requires AllDigits(s[k..k + n])
    requires k + n == |s| || !IsDigit(s[k + n])
    ensures DigitRun(s, k) == n
    decreases n
  {
    if n > 0 {
      assert IsDigit(s[k..k + n][0]);
      assert s[k + 1..k + n] == s[k..k + n][1..];
      DigitRunIs(s, k + 1, n - 1);
    }
  }

  /** The first group at `i`. `BA` and `BSc` differ in their second
      character, so at most one of them can start at `i` and trying `BA`
      first is what the regular expression does. */
  function DegreeAt(s: string, i: nat): Option<string>
  {
    if OccursAt(s, "BA", i) then Some("BA") else if OccursAt(s, "BSc", i) then Some("BSc") else None
  }

  /** The second group at `j`; the three alternatives exclude each other. */
  function DepartmentAt(s: string, j: nat): Option<string>
  {
    if OccursAt(s, "SE", j) then Some("SE") else if OccursAt(s, "ID", j) then Some("ID")
    else if OccursAt(s, "PM", j) then Some("PM") else None
  }

  /** The match of the expression that starts at position `i`, if any. The
      greedy `\d+` is the last item, so it takes the whole run of digits. */
  function MatchAt(s: string, i: nat): Option<NameMatch>
  {
    match DegreeAt(s, i)
    case None => None
    case Some(degree) =>
      var j := i + |degree|;
      if !OccursAt(s, "_", j) then None
      else match DepartmentAt(s, j + 1)
        case None => None
        case Some(department) =>
          if !OccursAt(s, "_v", j + 3) then None
          else
            var n := DigitRun(s, j + 5);
            if n == 0 then None
            else Some(NameMatch(s[i..j + 5 + n], degree, department, s[j + 5..j + 5 + n]))
  }

  lemma DegreeAtFacts(s: string, i: nat)
    requires DegreeAt(s, i).Some?
    ensures var d := DegreeAt(s, i).value; (d == "BA" || d == "BSc") && OccursAt(s, d, i)
  {
  }

  lemma DepartmentAtFacts(s: string, j: nat)
    requires DepartmentAt(s, j).Some?
    ensures var d := DepartmentAt(s, j).value; (d == "SE" || d == "ID" || d == "PM") && OccursAt(s, d, j)
  {
  }

  /** Two pieces that occur one after the other occur as their concatenation. */
  lemma OccursJoin(s: string, x: string, y: string, i: nat)
    requires OccursAt(s, x, i) && OccursAt(s, y, i + |x|)
    ensures OccursAt(s, x + y, i)
  {
    assert s[i..i + |x| + |y|] == s[i..i + |x|] + s[i + |x|..i + |x| + |y|];
  }

  /** The five pieces of a name, one after the other, form the name. */
  lemma OccursAsName(s: string, i: nat, degree: string, department: string, version: string)
    requires |department| == 2
    requires OccursAt(s, degree, i) && OccursAt(s, "_", i + |degree|) && OccursAt(s, department, i + |degree| + 1)
    requires OccursAt(s, "_v", i + |degree| + 3) && OccursAt(s, version, i + |degree| + 5)
    ensures OccursAt(s, degree + "_" + department + "_v" + version, i)
  {
    OccursJoin(s, degree, "_", i);
    OccursJoin(s, degree + "_", department, i);
    OccursJoin(s, degree + "_" + department, "_v", i);
    OccursJoin(s, degree + "_" + department + "_v", version, i);
  }

  /** A match starting at `i` has the shape the expression describes, sits
      in `s` at `i`, and is not followed by a further digit. */
  lemma MatchAtShape(s: string, i: nat)
    requires MatchAt(s, i).Some?
    ensures var m := MatchAt(s, i).value;
      && (m.degree == "BA" || m.degree == "BSc")
      && (m.department == "SE" || m.department == "ID" || m.department == "PM")
      && |m.version| > 0 && AllDigits(m.version)
      && m.fullName == m.degree + "_" + m.department + "_v" + m.version
      && OccursAt(s, m.fullName, i)
      && (i + |m.fullName| == |s| || !IsDigit(s[i + |m.fullName|]))
  {
    DegreeAtFacts(s, i);
    var degree := DegreeAt(s, i).value;
    var j := i + |degree|;
    DepartmentAtFacts(s, j + 1);
    var department := DepartmentAt(s, j + 1).value;
    var n := DigitRun(s, j + 5);
    var version := s[j + 5..j + 5 + n];
    var m := MatchAt(s, i).value;
    assert m == NameMatch(s[i..j + 5 + n], degree, department, version);
    OccursAsName(s, i, degree, department, version);
  }

  /** The leftmost match at or after position `i`. */
  function MatchFrom(s: string, i: nat): Option<NameMatch>
    requires i <= |s|
    decreases |s| - i
  {
    if MatchAt(s, i).Some? then MatchAt(s, i)
    else if i == |s| then None
    else MatchFrom(s, i + 1)
  }

  lemma {:induction false} MatchFromLeftmost(s: string, i: nat)
    requires i <= |s|
    ensures var r := MatchFrom(s, i);
      && (r.Some? ==> exists k: nat :: i <= k <= |s| && MatchAt(s, k) == r && forall j: nat :: i <= j < k ==> MatchAt(s, j).None?)
      && (r.None? ==> forall k: nat :: i <= k <= |s| ==> MatchAt(s, k).None?)
    decreases |s| - i
  {
    var r := MatchFrom(s, i);
    if MatchAt(s, i).Some? {
      assert MatchAt(s, i) == r;
    } else if i == |s| {
      forall k: nat | i <= k <= |s|
        ensures MatchAt(s, k).None?
      {
        assert k == i;
      }
    } else {
      MatchFromLeftmost(s, i + 1);
      assert r == MatchFrom(s, i + 1);
      if r.Some? {
        var k: nat :| i + 1 <= k <= |s| && MatchAt(s, k) == r && forall j: nat :: i + 1 <= j < k ==> MatchAt(s, j).None?;
        forall j: nat | i <= j < k
          ensures MatchAt(s, j).None?
        {
          if j > i {
            assert i + 1 <= j < k;
          }
        }
      } else {
        forall k: nat | i <= k <= |s|
          ensures MatchAt(s, k).None?
        {
          if k > i {
            assert i + 1 <= k <= |s|;
          }
        }
      }
    }
  }

  /** `name.match(/(BA|BSc)_(SE|ID|PM)_v(\d+)/)`. */
  function Match(s: string): Option<NameMatch>
  {
    MatchFrom(s, 0)
  }

  /** `Match` finds a match exactly when the expression matches somewhere,
      and the one it finds is the leftmost. */
  lemma MatchIsLeftmost(s: string)
    ensures Match(s).Some? <==> exists k: nat :: k <= |s| && MatchAt(s, k).Some?
    ensures Match(s).Some? ==> exists k: nat :: k <= |s| && MatchAt(s, k) == Match(s) && forall j: nat :: j < k ==> MatchAt(s, j).None?
  {
    MatchFromLeftmost(s, 0);
  }

  /** The handbook test of the pairing step: the name matches, its
      department group is `department` and its version group reads as
      `version`. The degree group is not looked at. */
  predicate HandbookMatches(name: string, department: string, version: nat)
  {
    var m := Match(name);
    m.Some? && m.value.department == department && AllDigits(m.value.version) && DigitsValue(m.value.version) == version
  }

  lemma DegreeAtIs(s: string, i: nat, degree: string)
    requires degree == "BA" || degree == "BSc"
    requires OccursAt(s, degree, i)
    ensures DegreeAt(s, i) == Some(degree)
  {
    assert s[i + 1] == s[i..i + |degree|][1] == degree[1];
  }

  lemma DepartmentAtIs(s: string, j: nat, department: string)
    requires department == "SE" || department == "ID" || department == "PM"
    requires OccursAt(s, department, j)
    ensures DepartmentAt(s, j) == Some(department)
  {
    assert s[j] == s[j..j + 2][0] == department[0];
  }

  /** `x` sits in `x + y` at 0 and `y` right after it. */
  lemma {:induction false} OccursInConcat(x: string, y: string)
    ensures OccursAt(x + y, x, 0) && OccursAt(x + y, y, |x|)
  {
    assert (x + y)[..|x|] == x;
    assert (x + y)[|x|..|x| + |y|] == y;
  }

  /** What occurs in a prefix occurs in the whole string. */
  lemma {:induction false} OccursInLonger(x: string, y: string, t: string, i: nat)
    requires OccursAt(x, t, i)
    ensures OccursAt(x + y, t, i)
  {
    assert (x + y)[i..i + |t|] == x[i..i + |t|];
  }

  /** Where the pieces of `degree_department_v<v>` followed by `rest` sit. */
  lemma NamePieces(degree: string, department: string, v: string, rest: string)
    requires |department| == 2
    ensures var s := degree + "_" + department + "_v" + v + rest;
      var j := |degree|;
      && OccursAt(s, degree, 0) && OccursAt(s, "_", j) && OccursAt(s, department, j + 1)
      && OccursAt(s, "_v", j + 3) && OccursAt(s, v, j + 5)
      && OccursAt(s, degree + "_" + department + "_v" + v, 0)
  {
    var a := degree + "_";
    var b := a + department;
    var c := b + "_v";
    var full := c + v;
    var j := |degree|;
    OccursInConcat(degree, "_");
    OccursInConcat(a, department);
    OccursInConcat(b, "_v");
    OccursInConcat(c, v);
    OccursInConcat(full, rest);
    OccursInLonger(a, department, degree, 0);
    OccursInLonger(b, "_v", degree, 0);
    OccursInLonger(c, v, degree, 0);
    OccursInLonger(full, rest, degree, 0);
    OccursInLonger(a, department, "_", j);
    OccursInLonger(b, "_v", "_", j);
    OccursInLonger(c, v, "_", j);
    OccursInLonger(full, rest, "_", j);
    OccursInLonger(b, "_v", department, j + 1);
    OccursInLonger(c, v, department, j + 1);
    OccursInLonger(full, rest, department, j + 1);
    OccursInLonger(c, v, "_v", j + 3);
    OccursInLonger(full, rest, "_v", j + 3);
    OccursInLonger(full, rest, v, j + 5);
  }

  /** A name that starts with `degree_department_v<version>`, followed by
      anything but a digit, is read back as exactly those groups. */
  lemma CanonicalNameMatch(degree: string, department: string, version: nat, rest: string)
    requires degree == "BA" || degree == "BSc"
    requires department == "SE" || department == "ID" || department == "PM"
    requires rest == [] || !IsDigit(rest[0])
    ensures var full := degree + "_" + department + "_v" + NatToString(version);
      Match(full + rest) == Some(NameMatch(full, degree, department, NatToString(version)))
  {
    var v := NatToString(version);
    var full := degree + "_" + department + "_v" + v;
    var s := full + rest;
    var j := |degree|;
    NamePieces(degree, department, v, rest);
    DegreeAtIs(s, 0, degree);
    DepartmentAtIs(s, j + 1, department);
    assert j + 5 + |v| == |s| || s[j + 5 + |v|] == rest[0];
    DigitRunIs(s, j + 5, |v|);
    assert s[0..j + 5 + |v|] == full;
  }

  /** Whatever the degree, a canonical name is found for its department and
      version. */
  lemma CanonicalNameIsFound(degree: string, department: string, version: nat, rest: string)
    requires degree == "BA" || degree == "BSc"
    requires department == "SE" || department == "ID" || department == "PM"
    requires rest == [] || !IsDigit(rest[0])
    ensures HandbookMatches(degree + "_" + department + "_v" + NatToString(version) + rest, department, version)
  {
    CanonicalNameMatch(degree, department, version, rest);
    NatToStringRoundTrip(version);
  }

  /** A piece of `s` splits into its two halves. */
  lemma OccursSplit(s: string, x: string, y: string, i: nat)
    requires OccursAt(s, x + y, i)
    ensures OccursAt(s, x, i) && OccursAt(s, y, i + |x|)
  {
    assert s[i..i + |x|] == s[i..i + |x| + |y|][..|x|];
    assert s[i + |x|..i + |x| + |y|] == s[i..i + |x| + |y|][|x|..];
  }

  /** Wherever `degree_department_v<digits>` occurs, not followed by a
      further digit, the expression matches there with exactly those groups. */
  lemma MatchAtIs(s: string, i: nat, degree: string, department: string, v: string)
    requires degree == "BA" || degree == "BSc"
    requires department == "SE" || department == "ID" || department == "PM"
    requires |v| > 0 && AllDigits(v)
    requires OccursAt(s, degree + "_" + department + "_v" + v, i)
    requires var end := i + |degree + "_" + department + "_v" + v|; end == |s| || !IsDigit(s[end])
    ensures MatchAt(s, i) == Some(NameMatch(degree + "_" + department + "_v" + v, degree, department, v))
  {
    var j := i + |degree|;
    OccursSplit(s, degree + "_" + department + "_v", v, i);
    OccursSplit(s, degree + "_" + department, "_v", i);
    OccursSplit(s, degree + "_", department, i);
    OccursSplit(s, degree, "_", i);
    DegreeAtIs(s, i, degree);
    DepartmentAtIs(s, j + 1, department);
    DigitRunIs(s, j + 5, |v|);
  }

  /** A name whose leftmost match is such an occurrence is found for its
      department and the value of its digits. */
  lemma NameFoundAt(s: string, i: nat, degree: string, department: string, v: string)
    requires degree == "BA" || degree == "BSc"
    requires department == "SE" || department == "ID" || department == "PM"
    requires |v| > 0 && AllDigits(v)
    requires OccursAt(s, degree + "_" + department + "_v" + v, i)
    requires var end := i + |degree + "_" + department + "_v" + v|; end == |s| || !IsDigit(s[end])
    requires forall j: nat :: j < i ==> MatchAt(s, j).None?
    ensures Match(s) == Some(NameMatch(degree + "_" + department + "_v" + v, degree, department, v))
    ensures HandbookMatches(s, department, DigitsValue(v))
  {
    MatchAtIs(s, i, degree, department, v);
    assert i <= |s| && MatchAt(s, i).Some?;
    MatchIsLeftmost(s);
    var k: nat :| k <= |s| && MatchAt(s, k) == Match(s) && forall j: nat :: j < k ==> MatchAt(s, j).None?;
    assert MatchAt(s, k).Some?;
    assert !(k < i);
    assert !(i < k);
  }

  /** No match can start at a position that does not hold `B`. */
  lemma NoMatchWithoutB(s: string, j: nat)
    requires j < |s| && s[j] != 'B'
    ensures MatchAt(s, j).None?
  {
    OccursHead(s, "BA", j);
    OccursHead(s, "BSc", j);
  }

  lemma OccursHead(s: string, t: string, j: nat)
    requires j < |s| && |t| > 0
    ensures OccursAt(s, t, j) ==> s[j] == t[0]
  {
    if OccursAt(s, t, j) {
      assert s[j..j + |t|][0] == s[j];
    }
  }

  /** A handbook name may carry text before the pattern, as in
      `Modulhandbuch BSc_SE_v3`: when that text holds no `B`, the name is
      found for its department and version. */
  lemma PrefixedNameIsFound(prefix: string, degree: string, department: string, version: nat, rest: string)
    requires forall k :: 0 <= k < |prefix| ==> prefix[k] != 'B'
    requires degree == "BA" || degree == "BSc"
    requires department == "SE" || department == "ID" || department == "PM"
    requires rest == [] || !IsDigit(rest[0])
    ensures HandbookMatches(prefix + (degree + "_" + department + "_v" + NatToString(version)) + rest, department, version)
  {
    var v := NatToString(version);
    var full := degree + "_" + department + "_v" + v;
    var s := prefix + full + rest;
    assert s[|prefix|..|prefix| + |full|] == full;
    assert |prefix| + |full| == |s| || s[|prefix| + |full|] == rest[0];
    forall j: nat | j < |prefix|
      ensures MatchAt(s, j).None?
    {
      assert s[j] == prefix[j];
      NoMatchWithoutB(s, j);
    }
    NameFoundAt(s, |prefix|, degree, department, v);
    NatToStringRoundTrip(version);
  }

  lemma PrefixedNameExample()
    ensures HandbookMatches("Modulhandbuch BSc_SE_v3", "SE", 3)
  {
    assert NatToString(3) == "3";
    PrefixedNameIsFound("Modulhandbuch ", "BSc", "SE", 3, "");
    assert "Modulhandbuch " + ("BSc" + "_" + "SE" + "_v" + "3") + "" == "Modulhandbuch BSc_SE_v3";
  }

  /** A name that is found for some department and version names that
      department and version. */
  lemma FoundNameNamesIt(name: string, department: string, version: nat)
    requires HandbookMatches(name, department, version)
    ensures exists k: nat, degree: string, digits: string ::
      && (degree == "BA" || degree == "BSc")
      && AllDigits(digits) && DigitsValue(digits) == version
      && OccursAt(name, degree + "_" + department + "_v" + digits, k)
  {
    MatchIsLeftmost(name);
    var k: nat :| k <= |name| && MatchAt(name, k) == Match(name);
    MatchAtShape(name, k);
    var m := Match(name).value;
    assert OccursAt(name, m.degree + "_" + department + "_v" + m.version, k);
  }
}
