/**
 The extension metadata generator proper: attribute lookup with defaults, the
 AsciiDoc document written for one `<extension>` element, the output path, and
 the per-feature entry point (`beginFeature`). A parser for rendered documents
 shows that the document determines every attribute it was rendered from.
 */
module MetaDoc {

  import opened Wrappers
  import opened Text
  import opened SpecVersion

  /** A feature element of the registry: its tag, its attributes, and the `<enum>` elements below it in document order. */
  datatype Feature = Feature(tag: string, attrs: map<string, string>, enums: seq<Enumerant>)

  /** `getAttrib(elem, attribute, default)`: the attribute's value if the element has it, else `default`. */
  function GetAttrib(attrs: map<string, string>, attribute: string, default: Option<string>): (r: Option<string>)
    ensures attribute in attrs ==> r == Some(attrs[attribute])
    ensures attribute !in attrs ==> r == default
  {
    if attribute in attrs then Some(attrs[attribute]) else default
  }

  /** The attributes a document is rendered from, after defaulting. */
  datatype ExtensionInfo = ExtensionInfo(
    name: string,
    number: string,
    extType: Option<string>,
    requiresList: Option<string>,
    contact: string,
    revision: string
  )

  // ---------------------------------------------------------------------------
  // Fixed text of the document

  const Warning := "// WARNING: DO NOT MODIFY! This file is automatically generated from the vk.xml registry"
  const NameHeader := "*Name String*::"
  const TypeHeader := "*Extension Type*::"
  const NumberHeader := "*Registered Extension Number*::"
  const RevisionHeader := "*Revision*::"
  const DependencyHeader := "*Extension and Version Dependencies*::"
  const ContactHeader := "*Contact*::"
  const BaseDependency := "  - Requires Vulkan 1.0"
  const InstanceLine := "    Instance extension"
  const DeviceLine := "    Device extension"
  const ValueIndent := "    "
  const ExtensionTypeText := " extension type"
  const UnrecognizedPrefix := ValueIndent + "UNRECOGNIZED" + ExtensionTypeText + ": "
  const MissingTypeLine := ValueIndent + "UNKNOWN" + ExtensionTypeText + " (*this should never happen*)"
  const ListItem := "  - "
  const DependencyPrefix := "  - Requires `<<"
  const DependencySuffix := ">>`"

  /** The value line of the *Extension Type* block. */
  function TypeLine(extType: Option<string>): (line: string)
    ensures |ValueIndent| <= |line| && line[..|ValueIndent|] == ValueIndent
    ensures extType.Some? && extType.value != "instance" && extType.value != "device"
            ==> EndsWith(line, extType.value)
  {
    match extType
    case Some(t) =>
      if t == "instance" then InstanceLine
      else if t == "device" then DeviceLine
      else UnrecognizedPrefix + t
    case None => MissingTypeLine
  }

  /** The dependency names: the pieces of `requires.split(',')`, or none when `requires` is absent. */
  function Dependencies(requiresList: Option<string>): (deps: seq<string>)
    ensures requiresList.None? ==> deps == []
    ensures requiresList.Some? ==> |deps| >= 1
  {
    match requiresList
    case Some(r) => Split(r, ',')
    case None => []
  }

  /** With `requires` present there is one dependency per comma, plus one. */
  lemma DependencyCount(requiresList: string)
    ensures |Dependencies(Some(requiresList))| == multiset(requiresList)[','] + 1
  {
    SplitCount(requiresList, ',');
  }

  function DependencyLine(dep: string): (line: string)
  {
    DependencyPrefix + dep + DependencySuffix
  }

  function DependencyLines(deps: seq<string>): (lines: seq<string>)
    ensures |lines| == |deps|
    ensures forall j :: 0 <= j < |deps| ==> lines[j] == DependencyLine(deps[j])
  {
    seq(|deps|, j requires 0 <= j < |deps| => DependencyLine(deps[j]))
  }

  /** The lines of the document written for one extension (lines 97-136 of the generator). */
  function Render(info: ExtensionInfo): (lines: seq<string>)
    ensures |lines| == 16 + |Dependencies(info.requiresList)|
    ensures lines[0] == Warning
    ensures lines[1] == "[[" + info.name + "]]"
    ensures lines[2] == "== " + info.name
    ensures lines[3] == ""
    ensures lines[4] == NameHeader && lines[5] == ValueIndent + "`" + info.name + "`"
    ensures lines[6] == TypeHeader && lines[7] == TypeLine(info.extType)
    ensures lines[8] == NumberHeader && lines[9] == ValueIndent + info.number
    ensures lines[10] == RevisionHeader && lines[11] == ValueIndent + info.revision
    ensures lines[12] == DependencyHeader && lines[13] == BaseDependency
    ensures forall j :: 0 <= j < |Dependencies(info.requiresList)| ==>
              lines[14 + j] == DependencyLine(Dependencies(info.requiresList)[j])
    ensures lines[|lines| - 2] == ContactHeader && lines[|lines| - 1] == ListItem + info.contact
  {
    [ Warning, "[[" + info.name + "]]", "== " + info.name, ""
    , NameHeader, ValueIndent + "`" + info.name + "`"
    , TypeHeader, TypeLine(info.extType)
    , NumberHeader, ValueIndent + info.number
    , RevisionHeader, ValueIndent + info.revision
    , DependencyHeader, BaseDependency ]
    + DependencyLines(Dependencies(info.requiresList))
    + [ ContactHeader, ListItem + info.contact ]
  }

  /** `directory + '/' + name + '.txt'`. */
  function OutputPath(directory: string, name: string): (path: string)
    ensures |path| == |directory| + |name| + 5
    ensures path[..|directory|] == directory && path[|directory|] == '/'
    ensures path[|directory| + 1..|directory| + 1 + |name|] == name
    ensures EndsWith(path, ".txt")
  {
    directory + "/" + name + ".txt"
  }

  // ---------------------------------------------------------------------------
  // Per-feature entry point

  /** The diagnostics logged while generating one document. */
  datatype Diagnostics = Diagnostics(typeMissing: bool, specVersion: SpecVersionResult)

  datatype Outcome =
    | Ignored(name: Option<string>)          // not an <extension>: only a diagnostic is logged
    | MissingName                            // <extension> without `name`: `None.upper()` raises
    | Generated(path: string, lines: seq<string>, diags: Diagnostics)

  /** The optional attributes, defaulted as in lines 82-86 of the generator. */
  function Resolve(f: Feature, name: string): (r: (ExtensionInfo, SpecVersionResult))
    ensures r.1 == GetSpecVersion(f.enums, name, Some(Unknown))
    ensures r.0.name == name && r.0.revision == r.1.value
    ensures r.0.number == if "number" in f.attrs then f.attrs["number"] else Unknown
    ensures r.0.contact == if "contact" in f.attrs then f.attrs["contact"] else Unknown
    ensures r.0.extType == if "type" in f.attrs then Some(f.attrs["type"]) else None
    ensures r.0.requiresList == if "requires" in f.attrs then Some(f.attrs["requires"]) else None
  {
    var revision := GetSpecVersion(f.enums, name, Some(Unknown));
    var info := ExtensionInfo(
      name,
      GetAttrib(f.attrs, "number", Some(Unknown)).value,
      GetAttrib(f.attrs, "type", None),
      GetAttrib(f.attrs, "requires", None),
      GetAttrib(f.attrs, "contact", Some(Unknown)).value,
      revision.value);
    (info, revision)
  }

  /** `beginFeature(interface, emit)` with the file it writes returned as a path and its lines. */
  function BeginFeature(f: Feature, directory: string): (out: Outcome)
    ensures f.tag != "extension" <==> out.Ignored?
    ensures out.Ignored? ==> out.name == GetAttrib(f.attrs, "name", None)
    ensures out.MissingName? <==> f.tag == "extension" && "name" !in f.attrs
    ensures out.Generated? ==>
              && out.path == OutputPath(directory, f.attrs["name"])
              && (out.diags.typeMissing <==> "type" !in f.attrs)
              && out.diags.specVersion == GetSpecVersion(f.enums, f.attrs["name"], Some(Unknown))
              && out.lines == Render(Resolve(f, f.attrs["name"]).0)
  {
    var name := GetAttrib(f.attrs, "name", None);
    if f.tag != "extension" then Ignored(name)
    else if name.None? then MissingName
    else
      var (info, revision) := Resolve(f, name.value);
      Generated(OutputPath(directory, name.value), Render(info), Diagnostics(info.extType.None?, revision))
  }

  /** The *Revision* line of a generated document follows the three resolution rules. */
  lemma GeneratedRevisionLine(f: Feature, directory: string)
    requires f.tag == "extension" && "name" in f.attrs
    ensures
      var out := BeginFeature(f, directory);
      var n := EnumName(f.attrs["name"]);
      && out.Generated?
      && (forall i :: FirstExactAt(f.enums, n, i) ==> out.lines[11] == ValueIndent + ValueOf(f.enums[i]))
      && (NoExact(f.enums, n) ==>
            forall i :: LastCandidateAt(f.enums, i) ==> out.lines[11] == ValueIndent + ValueOf(f.enums[i]))
      && (NoCandidate(f.enums) ==> out.lines[11] == ValueIndent + Unknown)
  {
    var name := f.attrs["name"];
    var n := EnumName(name);
    forall i | FirstExactAt(f.enums, n, i)
      ensures GetSpecVersion(f.enums, name, Some(Unknown)).value == ValueOf(f.enums[i])
    {
      ExactMatchWins(f.enums, name, Some(Unknown), i);
    }
    if NoExact(f.enums, n) {
      forall i | LastCandidateAt(f.enums, i)
        ensures GetSpecVersion(f.enums, name, Some(Unknown)).value == ValueOf(f.enums[i])
      {
        LastCandidateWins(f.enums, name, Some(Unknown), i);
      }
    }
    if NoCandidate(f.enums) {
      NoCandidateIsUnknown(f.enums, name, Some(Unknown));
    }
  }

  /** The value lines of a generated document, read straight from the element's attributes. */
  lemma GeneratedAttributeLines(f: Feature, directory: string)
    requires f.tag == "extension" && "name" in f.attrs
    ensures
      var out := BeginFeature(f, directory);
      && out.Generated?
      && out.lines[5] == ValueIndent + "`" + f.attrs["name"] + "`"
      && out.lines[9] == ValueIndent + (if "number" in f.attrs then f.attrs["number"] else Unknown)
      && ("requires" in f.attrs ==>
            out.lines[14..|out.lines| - 2] == DependencyLines(Split(f.attrs["requires"], ',')))
      && ("requires" !in f.attrs ==> |out.lines| == 16)
      && out.lines[|out.lines| - 1] == ListItem + (if "contact" in f.attrs then f.attrs["contact"] else Unknown)
  {
  }

  /** Two elements agree on an attribute: both lack it, or both have it with the same value. */
  predicate SameAttrib(a: map<string, string>, b: map<string, string>, attribute: string)
  {
    GetAttrib(a, attribute, None) == GetAttrib(b, attribute, None)
  }

  /** The generated document depends on nothing but the tag, the enumerants and five attributes. */
  lemma BeginFeatureFrame(f: Feature, g: Feature, directory: string)
    requires f.tag == g.tag && f.enums == g.enums
    requires SameAttrib(f.attrs, g.attrs, "name") && SameAttrib(f.attrs, g.attrs, "number")
    requires SameAttrib(f.attrs, g.attrs, "type") && SameAttrib(f.attrs, g.attrs, "requires")
    requires SameAttrib(f.attrs, g.attrs, "contact")
    ensures BeginFeature(f, directory) == BeginFeature(g, directory)
  {
  }

  // ---------------------------------------------------------------------------
  // Reading a document back

  function ParseTypeLine(line: string): (extType: Option<Option<string>>)
  {
    if line == InstanceLine then Some(Some("instance"))
    else if line == DeviceLine then Some(Some("device"))
    else if line == MissingTypeLine then Some(None)
    else match StripAffixes(UnrecognizedPrefix, line, "")
      case Some(t) => if t == "instance" || t == "device" then None else Some(Some(t))
      case None => None
  }

  /** The dependency names of a run of dependency lines; none of them may contain a comma. */
  function ParseDependencyLines(lines: seq<string>): (deps: Option<seq<string>>)
    ensures deps.Some? ==> |deps.value| == |lines|
  {
    if |lines| == 0 then Some([])
    else match (StripAffixes(DependencyPrefix, lines[0], DependencySuffix), ParseDependencyLines(lines[1..]))
      case (Some(d), Some(rest)) => if ',' in d then None else Some([d] + rest)
      case _ => None
  }

  /** The attributes a document was rendered from, or `None` when it is not a rendered document. */
  function Parse(lines: seq<string>): (info: Option<ExtensionInfo>)
  {
    if |lines| < 16 then None
    else
      var k := |lines| - 16;
      match (StripAffixes("[[", lines[1], "]]"), ParseTypeLine(lines[7]),
             StripAffixes(ValueIndent, lines[9], ""), StripAffixes(ValueIndent, lines[11], ""),
             ParseDependencyLines(lines[14..14 + k]), StripAffixes(ListItem, lines[15 + k], ""))
      case (Some(name), Some(extType), Some(number), Some(revision), Some(deps), Some(contact)) =>
        if && lines[0] == Warning && lines[2] == "== " + name && lines[3] == ""
           && lines[4] == NameHeader && lines[5] == ValueIndent + "`" + name + "`"
           && lines[6] == TypeHeader && lines[8] == NumberHeader && lines[10] == RevisionHeader
           && lines[12] == DependencyHeader && lines[13] == BaseDependency
           && lines[14 + k] == ContactHeader
        then Some(ExtensionInfo(name, number, extType, if k == 0 then None else Some(Join(deps, ',')), contact, revision))
        else None
      case _ => None
  }

  // ---------------------------------------------------------------------------
  // Properties of the document

  /** Each of the four type lines is produced by exactly one kind of `type` attribute. */
  lemma TypeLineCases(extType: Option<string>)
    ensures TypeLine(extType) == InstanceLine <==> extType == Some("instance")
    ensures TypeLine(extType) == DeviceLine <==> extType == Some("device")
    ensures TypeLine(extType) == MissingTypeLine <==> extType == None
    ensures extType.Some? && extType.value != "instance" && extType.value != "device"
            <==> StripAffixes(UnrecognizedPrefix, TypeLine(extType), "").Some?
  {
    assert InstanceLine[4] == 'I' && DeviceLine[4] == 'D' && MissingTypeLine[6] == 'K';
    if extType.Some? && extType.value != "instance" && extType.value != "device" {
      var line := UnrecognizedPrefix + extType.value;
      assert line[4] == 'U' && line[6] == 'R';
      StripAffixesOfConcat(UnrecognizedPrefix, extType.value, "");
    }
  }

  lemma ParseTypeLineRoundTrip(extType: Option<string>)
    ensures ParseTypeLine(TypeLine(extType)) == Some(extType)
  {
    TypeLineCases(extType);
    if extType.Some? && extType.value != "instance" && extType.value != "device" {
      StripAffixesOfConcat(UnrecognizedPrefix, extType.value, "");
      assert UnrecognizedPrefix + extType.value + "" == TypeLine(extType);
    }
  }

  lemma TypeLineOfParse(line: string, extType: Option<string>)
    requires ParseTypeLine(line) == Some(extType)
    ensures TypeLine(extType) == line
  {
  }

  lemma {:induction false} ParseDependencyLinesRoundTrip(deps: seq<string>)
    requires forall j :: 0 <= j < |deps| ==> ',' !in deps[j]
    ensures ParseDependencyLines(DependencyLines(deps)) == Some(deps)
    decreases |deps|
  {
    if |deps| > 0 {
      var lines := DependencyLines(deps);
      assert lines[1..] == DependencyLines(deps[1..]);
      ParseDependencyLinesRoundTrip(deps[1..]);
      StripAffixesOfConcat(DependencyPrefix, deps[0], DependencySuffix);
      assert [deps[0]] + deps[1..] == deps;
    }
  }

  lemma {:induction false} DependencyLinesOfParse(lines: seq<string>, deps: seq<string>)
    requires ParseDependencyLines(lines) == Some(deps)
    ensures DependencyLines(deps) == lines
    ensures forall j :: 0 <= j < |deps| ==> ',' !in deps[j]
    decreases |lines|
  {
    if |lines| > 0 {
      DependencyLinesOfParse(lines[1..], deps[1..]);
      assert lines == [lines[0]] + lines[1..];
    }
  }

  /** Reading a rendered document back gives the attributes it was rendered from. */
  lemma ParseRender(info: ExtensionInfo)
    ensures Parse(Render(info)) == Some(info)
  {
    var lines := Render(info);
    var deps := Dependencies(info.requiresList);
    var k := |lines| - 16;
    assert k == |deps|;
    StripAffixesOfConcat("[[", info.name, "]]");
    ParseTypeLineRoundTrip(info.extType);
    StripAffixesOfConcat(ValueIndent, info.number, "");
    assert ValueIndent + info.number + "" == ValueIndent + info.number;
    StripAffixesOfConcat(ValueIndent, info.revision, "");
    assert ValueIndent + info.revision + "" == ValueIndent + info.revision;
    StripAffixesOfConcat(ListItem, info.contact, "");
    assert ListItem + info.contact + "" == ListItem + info.contact;
    assert lines[14..14 + k] == DependencyLines(deps);
    ParseDependencyLinesRoundTrip(deps);
    if info.requiresList.Some? {
      JoinSplit(info.requiresList.value, ',');
    }
  }

  /** What `Parse` checked of a document it accepted, line by line. */
  lemma ParseFacts(lines: seq<string>, info: ExtensionInfo)
    requires Parse(lines) == Some(info)
    ensures |lines| >= 16
    ensures lines[0] == Warning && lines[1] == "[[" + info.name + "]]"
    ensures lines[2] == "== " + info.name && lines[3] == ""
    ensures lines[4] == NameHeader && lines[5] == ValueIndent + "`" + info.name + "`"
    ensures lines[6] == TypeHeader && lines[7] == TypeLine(info.extType)
    ensures lines[8] == NumberHeader && lines[9] == ValueIndent + info.number
    ensures lines[10] == RevisionHeader && lines[11] == ValueIndent + info.revision
    ensures lines[12] == DependencyHeader && lines[13] == BaseDependency
    ensures lines[14..|lines| - 2] == DependencyLines(Dependencies(info.requiresList))
    ensures lines[|lines| - 2] == ContactHeader && lines[|lines| - 1] == ListItem + info.contact
  {
    var k := |lines| - 16;
    var deps := ParseDependencyLines(lines[14..14 + k]).value;
    DependencyLinesOfParse(lines[14..14 + k], deps);
    TypeLineOfParse(lines[7], info.extType);
    if k > 0 {
      SplitJoin(deps, ',');
    }
  }

  /** Every document `Parse` accepts is exactly the rendering of what it returns. */
  lemma RenderParse(lines: seq<string>, info: ExtensionInfo)
    requires Parse(lines) == Some(info)
    ensures Render(info) == lines
  {
    ParseFacts(lines, info);
    var r := Render(info);
    var k := |lines| - 16;
    assert |r| == |lines|;
    assert r[14..|r| - 2] == lines[14..|lines| - 2];
    forall i | 0 <= i < |lines| ensures r[i] == lines[i] {
      if 14 <= i < 14 + k {
        assert r[i] == r[14..|r| - 2][i - 14];
        assert lines[i] == lines[14..|lines| - 2][i - 14];
      }
    }
  }

  /** Different attributes never render to the same document. */
  lemma RenderInjective(a: ExtensionInfo, b: ExtensionInfo)
    requires Render(a) == Render(b)
    ensures a == b
  {
    ParseRender(a);
    ParseRender(b);
  }

  // ---------------------------------------------------------------------------
  // Worked examples

  /** A device extension with an exact revision token and two dependencies. */
  const DeviceExample := Feature("extension",
    map["name" := "VK_KHR_TEST", "type" := "device", "number" := "123",
        "requires" := "VK_KHR_A,VK_KHR_B", "contact" := "alice"],
    [Enumerant("VK_KHR_TEST_SPEC_VERSION", Some("4"))])

  lemma DeviceExampleRevision()
    ensures GetSpecVersion(DeviceExample.enums, "VK_KHR_TEST", Some(Unknown)) == SpecVersionResult("4", [], false)
  {
    UpperOfUpperCase("VK_KHR_TEST");
    assert EnumName("VK_KHR_TEST") == "VK_KHR_TEST_SPEC_VERSION";
    ExactMatchWins(DeviceExample.enums, "VK_KHR_TEST", Some(Unknown), 0);
    MismatchesBeforeExact(DeviceExample.enums, "VK_KHR_TEST", Some(Unknown), 0);
  }

  lemma DeviceExampleDependencies()
    ensures Dependencies(Some("VK_KHR_A,VK_KHR_B")) == ["VK_KHR_A", "VK_KHR_B"]
  {
    assert "VK_KHR_A,VK_KHR_B" == "VK_KHR_A" + [','] + "VK_KHR_B";
    SplitCons("VK_KHR_A", "VK_KHR_B", ',');
    SplitWithoutSeparator("VK_KHR_B", ',');
  }

  lemma DeviceExampleDocument()
    ensures
      var out := BeginFeature(DeviceExample, "out");
      && out.Generated?
      && out.path == "out/VK_KHR_TEST.txt"
      && |out.lines| == 18
      && out.lines[7] == DeviceLine && !out.diags.typeMissing
      && out.lines[9] == "    123"
      && out.lines[11] == "    4" && !out.diags.specVersion.unknownDiag
      && out.lines[13] == BaseDependency
      && out.lines[14] == "  - Requires `<<VK_KHR_A>>`"
      && out.lines[15] == "  - Requires `<<VK_KHR_B>>`"
      && out.lines[17] == "  - alice"
  {
    DeviceExampleRevision();
    DeviceExampleDependencies();
    var info := ExtensionInfo("VK_KHR_TEST", "123", Some("device"), Some("VK_KHR_A,VK_KHR_B"), "alice", "4");
    assert Resolve(DeviceExample, "VK_KHR_TEST").0 == info;
    DeviceExampleText();
  }

  lemma DeviceExampleText()
    ensures DependencyLine("VK_KHR_A") == "  - Requires `<<VK_KHR_A>>`"
    ensures DependencyLine("VK_KHR_B") == "  - Requires `<<VK_KHR_B>>`"
    ensures OutputPath("out", "VK_KHR_TEST") == "out/VK_KHR_TEST.txt"
    ensures ValueIndent + "123" == "    123" && ValueIndent + "4" == "    4"
    ensures ListItem + "alice" == "  - alice"
  {
  }

  /** An extension with only a name: placeholder type, no revision token, no dependencies. */
  lemma BareExtensionExample()
    ensures
      var out := BeginFeature(Feature("extension", map["name" := "VK_KHR_EMPTY"], []), "out");
      && out.Generated?
      && |out.lines| == 16
      && out.lines[7] == MissingTypeLine && out.diags.typeMissing
      && out.lines[9] == "    UNKNOWN"
      && out.lines[11] == "    UNKNOWN" && out.diags.specVersion.unknownDiag
      && out.lines[13] == BaseDependency && out.lines[14] == ContactHeader
      && out.lines[15] == "  - UNKNOWN"
  {
  }

  /** A feature that is not an extension produces no document. */
  lemma NonExtensionExample()
    ensures BeginFeature(Feature("feature", map["name" := "VK_VERSION_1_0"], []), "out") == Ignored(Some("VK_VERSION_1_0"))
  {
  }
}
