/**
 Revision resolution (`getSpecVersion`): one ordered pass over the `<enum>`
 elements of an extension, where the exact `<NAME>_SPEC_VERSION` token wins and
 stops the scan, otherwise the last `*_SPEC_VERSION` token wins, otherwise the
 result is the sentinel `UNKNOWN`.
 */
module SpecVersion {

  import opened Wrappers
  import opened Text

  const Unknown := "UNKNOWN"
  const SpecVersionSuffix := "_SPEC_VERSION"

  /** One `<enum>` element: its name and its optional `value` attribute. */
  datatype Enumerant = Enumerant(name: string, value: Option<string>)

  /** The enumerant's `value` attribute, defaulted to `UNKNOWN` when absent. */
  function ValueOf(e: Enumerant): (v: string)
    ensures e.value.Some? ==> v == e.value.value
    ensures e.value.None? ==> v == Unknown
  {
    e.value.GetOr(Unknown)
  }

  /** The literal enumerant name the extension's revision should be under. */
  function EnumName(extname: string): (n: string)
    ensures |n| == |extname| + 13
    ensures n[..|extname|] == Upper(extname)
    ensures EndsWith(n, SpecVersionSuffix)
  {
    EndsWithConcat(Upper(extname), SpecVersionSuffix);
    Upper(extname) + SpecVersionSuffix
  }

  /** Outcome of the scan: the value it settled on and the names it reported as potential mismatches. */
  datatype Scan = Scan(version: string, mismatches: seq<string>)

  /**
   The loop of `getSpecVersion` from the current position on, with `specVersion`
   the value settled on so far. The suffix test is Python's `thisName[-13:]`.
   */
  function ScanFrom(enums: seq<Enumerant>, enumName: string, specVersion: string): (r: Scan)
    ensures r.version == specVersion || exists i :: 0 <= i < |enums| && r.version == ValueOf(enums[i])
    ensures |r.mismatches| <= |enums|
    decreases |enums|
  {
    if |enums| == 0 then Scan(specVersion, [])
    else if enums[0].name == enumName then Scan(ValueOf(enums[0]), [])
    else if NegativeSlice(enums[0].name, 13) == SpecVersionSuffix then
      var rest := ScanFrom(enums[1..], enumName, ValueOf(enums[0]));
      Scan(rest.version, [enums[0].name] + rest.mismatches)
    else ScanFrom(enums[1..], enumName, specVersion)
  }

  /** Everything `getSpecVersion` produces: the revision and its two kinds of diagnostics. */
  datatype SpecVersionResult = SpecVersionResult(
    value: string,
    mismatchDiags: seq<string>,  // names reported as a potential name mismatch, in order
    unknownDiag: bool            // whether "UNKNOWN SPEC_VERSION" is printed
  )

  /**
   `getSpecVersion(elem, extname, default)`. The `default` argument is accepted
   and, as in the generator, never consulted.
   */
  function GetSpecVersion(enums: seq<Enumerant>, extname: string, default: Option<string>): (r: SpecVersionResult)
    ensures r.unknownDiag <==> r.value == Unknown
    ensures forall i :: 0 <= i < |r.mismatchDiags| ==>
              EndsWith(r.mismatchDiags[i], SpecVersionSuffix) && r.mismatchDiags[i] != EnumName(extname)
  {
    var s := ScanFrom(enums, EnumName(extname), Unknown);
    MismatchesAreCandidates(enums, EnumName(extname), Unknown);
    SpecVersionResult(s.version, s.mismatches, s.version == Unknown)
  }

  // ---------------------------------------------------------------------------
  // Declarative description of the scan

  /** A name the scan treats as a candidate revision token. */
  predicate Candidate(name: string)
  {
    EndsWith(name, SpecVersionSuffix)
  }

  predicate NoExact(enums: seq<Enumerant>, enumName: string)
  {
    forall j :: 0 <= j < |enums| ==> enums[j].name != enumName
  }

  predicate NoCandidate(enums: seq<Enumerant>)
  {
    forall j :: 0 <= j < |enums| ==> !Candidate(enums[j].name)
  }

  /** Position `i` holds the first enumerant named exactly `enumName`. */
  predicate FirstExactAt(enums: seq<Enumerant>, enumName: string, i: int)
  {
    0 <= i < |enums| && enums[i].name == enumName && NoExact(enums[..i], enumName)
  }

  /** Position `i` holds the last candidate enumerant. */
  predicate LastCandidateAt(enums: seq<Enumerant>, i: int)
  {
    0 <= i < |enums| && Candidate(enums[i].name)
    && forall j :: i < j < |enums| ==> !Candidate(enums[j].name)
  }

  /** The names of the candidate enumerants, in order. */
  function CandidateNames(enums: seq<Enumerant>): (names: seq<string>)
    ensures |names| <= |enums|
  {
    if |enums| == 0 then []
    else if Candidate(enums[0].name) then [enums[0].name] + CandidateNames(enums[1..])
    else CandidateNames(enums[1..])
  }

  lemma SuffixTest(name: string)
    ensures NegativeSlice(name, 13) == SpecVersionSuffix <==> Candidate(name)
  {
    NegativeSliceIsEndsWith(name, SpecVersionSuffix);
  }

  // ---------------------------------------------------------------------------
  // The scan against the declarative description

  lemma {:induction false} MismatchesAreCandidates(enums: seq<Enumerant>, enumName: string, acc: string)
    ensures forall i :: 0 <= i < |ScanFrom(enums, enumName, acc).mismatches| ==>
              Candidate(ScanFrom(enums, enumName, acc).mismatches[i])
              && ScanFrom(enums, enumName, acc).mismatches[i] != enumName
    decreases |enums|
  {
    if |enums| > 0 && enums[0].name != enumName {
      SuffixTest(enums[0].name);
      MismatchesAreCandidates(enums[1..], enumName, ValueOf(enums[0]));
      MismatchesAreCandidates(enums[1..], enumName, acc);
    }
  }

  lemma {:induction false} ScanExact(enums: seq<Enumerant>, enumName: string, acc: string, i: int)
    requires FirstExactAt(enums, enumName, i)
    ensures ScanFrom(enums, enumName, acc).version == ValueOf(enums[i])
    decreases |enums|
  {
    if i > 0 {
      assert enums[..i][0] == enums[0];
      assert enums[1..][..i - 1] == enums[..i][1..];
      ScanExact(enums[1..], enumName, ValueOf(enums[0]), i - 1);
      ScanExact(enums[1..], enumName, acc, i - 1);
    }
  }

  lemma {:induction false} ScanNone(enums: seq<Enumerant>, enumName: string, acc: string)
    requires NoExact(enums, enumName) && NoCandidate(enums)
    ensures ScanFrom(enums, enumName, acc) == Scan(acc, [])
    decreases |enums|
  {
    if |enums| > 0 {
      SuffixTest(enums[0].name);
      ScanNone(enums[1..], enumName, acc);
    }
  }

  lemma {:induction false} ScanLast(enums: seq<Enumerant>, enumName: string, acc: string, i: int)
    requires NoExact(enums, enumName) && LastCandidateAt(enums, i)
    ensures ScanFrom(enums, enumName, acc).version == ValueOf(enums[i])
    decreases |enums|
  {
    SuffixTest(enums[0].name);
    if i == 0 {
      ScanNone(enums[1..], enumName, ValueOf(enums[0]));
    } else {
      ScanLast(enums[1..], enumName, ValueOf(enums[0]), i - 1);
      ScanLast(enums[1..], enumName, acc, i - 1);
    }
  }

  lemma {:induction false} ScanMismatches(enums: seq<Enumerant>, enumName: string, acc: string, k: int)
    requires 0 <= k <= |enums| && NoExact(enums[..k], enumName)
    requires k < |enums| ==> enums[k].name == enumName
    ensures ScanFrom(enums, enumName, acc).mismatches == CandidateNames(enums[..k])
    decreases |enums|
  {
    if k > 0 {
      SuffixTest(enums[0].name);
      assert enums[..k][0] == enums[0];
      assert enums[1..][..k - 1] == enums[..k][1..];
      ScanMismatches(enums[1..], enumName, ValueOf(enums[0]), k - 1);
      ScanMismatches(enums[1..], enumName, acc, k - 1);
    }
  }

  // ---------------------------------------------------------------------------
  // Properties of getSpecVersion

  /** The first exact token wins, whatever `_SPEC_VERSION` names come before or after it. */
  lemma ExactMatchWins(enums: seq<Enumerant>, extname: string, default: Option<string>, i: int)
    requires FirstExactAt(enums, EnumName(extname), i)
    ensures GetSpecVersion(enums, extname, default).value == ValueOf(enums[i])
  {
    ScanExact(enums, EnumName(extname), Unknown, i);
  }

  /** Without an exact token, the last `_SPEC_VERSION` token wins. */
  lemma LastCandidateWins(enums: seq<Enumerant>, extname: string, default: Option<string>, i: int)
    requires NoExact(enums, EnumName(extname)) && LastCandidateAt(enums, i)
    ensures GetSpecVersion(enums, extname, default).value == ValueOf(enums[i])
  {
    ScanLast(enums, EnumName(extname), Unknown, i);
  }

  /** Without any `_SPEC_VERSION` token the result is the sentinel, reported, with no mismatch reported. */
  lemma NoCandidateIsUnknown(enums: seq<Enumerant>, extname: string, default: Option<string>)
    requires NoCandidate(enums)
    ensures GetSpecVersion(enums, extname, default) == SpecVersionResult(Unknown, [], true)
  {
    var n := EnumName(extname);
    assert NoExact(enums, n) by {
      forall j | 0 <= j < |enums| ensures enums[j].name != n {
        assert !Candidate(enums[j].name);
      }
    }
    ScanNone(enums, n, Unknown);
  }

  /** Potential mismatches are reported for exactly the candidates met before the first exact token. */
  lemma MismatchesBeforeExact(enums: seq<Enumerant>, extname: string, default: Option<string>, k: int)
    requires 0 <= k <= |enums| && NoExact(enums[..k], EnumName(extname))
    requires k < |enums| ==> enums[k].name == EnumName(extname)
    ensures GetSpecVersion(enums, extname, default).mismatchDiags == CandidateNames(enums[..k])
  {
    ScanMismatches(enums, EnumName(extname), Unknown, k);
  }

  /** The `default` argument has no influence on the result. */
  lemma DefaultIgnored(enums: seq<Enumerant>, extname: string, d1: Option<string>, d2: Option<string>)
    ensures GetSpecVersion(enums, extname, d1) == GetSpecVersion(enums, extname, d2)
  {
  }

  lemma {:induction false} FirstExactExists(enums: seq<Enumerant>, enumName: string, j: int)
    requires 0 <= j < |enums| && enums[j].name == enumName
    ensures exists i :: FirstExactAt(enums, enumName, i)
    decreases j
  {
    if NoExact(enums[..j], enumName) {
      assert FirstExactAt(enums, enumName, j);
    } else {
      var j' :| 0 <= j' < j && enums[..j][j'].name == enumName;
      FirstExactExists(enums, enumName, j');
    }
  }

  lemma {:induction false} LastCandidateExists(enums: seq<Enumerant>, j: int)
    requires 0 <= j < |enums| && Candidate(enums[j].name)
    ensures exists i :: LastCandidateAt(enums, i)
    decreases |enums| - j
  {
    if LastCandidateAt(enums, j) {
    } else {
      var j' :| j < j' < |enums| && Candidate(enums[j'].name);
      LastCandidateExists(enums, j');
    }
  }

  /**
   The three rules cover every input: there is a first exact token, or there is
   no exact token but a last candidate, or there is no candidate at all.
   */
  lemma {:induction false} ResolutionCases(enums: seq<Enumerant>, extname: string)
    ensures || (exists i :: FirstExactAt(enums, EnumName(extname), i))
            || (NoExact(enums, EnumName(extname)) && exists i :: LastCandidateAt(enums, i))
            || NoCandidate(enums)
  {
    var n := EnumName(extname);
    if !NoExact(enums, n) {
      var j :| 0 <= j < |enums| && enums[j].name == n;
      FirstExactExists(enums, n, j);
    } else if !NoCandidate(enums) {
      var j :| 0 <= j < |enums| && Candidate(enums[j].name);
      LastCandidateExists(enums, j);
    }
  }
}
