# Extension metadata documents, modelled in Dafny

A model of the extension metadata generator of the Vulkan specification
sources (`src/spec/extensionmetadocgenerator.py`). For every `<extension>`
element of the registry the generator writes one AsciiDoc include file,
`<directory>/<name>.txt`, holding the extension's name string, type,
registered number, revision, dependencies and contact. The model covers the
three pieces of logic in it:

- **attribute lookup with defaults** (`getAttrib`): `MetaDoc.GetAttrib`, and
  `MetaDoc.Resolve` for the defaulting of `number`, `type`, `requires` and
  `contact`;
- **revision resolution** (`getSpecVersion`): `SpecVersion.GetSpecVersion`,
  a recursive rendering of the single `for … break` scan. It is related by
  lemmas to a declarative description: the first exact `<NAME>_SPEC_VERSION`
  enumerant, else the last `*_SPEC_VERSION` enumerant, else `UNKNOWN`;
- **document rendering** (the body of `beginFeature`): `MetaDoc.Render` maps the
  resolved attributes to the exact sequence of lines written, and
  `MetaDoc.OutputPath` builds the file name. `MetaDoc.Parse` reads a document
  back, and two lemmas prove it is an exact inverse of `Render` in both directions.

`MetaDoc.BeginFeature` puts these together for one feature element. It returns
`Ignored` for a feature that is not an `<extension>`. It returns `MissingName`
for an `<extension>` without `name`; the generator raises there, on
`None.upper()`. Otherwise it returns `Generated(path, lines, diagnostics)`.

Files: `wrappers.dfy` (module `Wrappers`, `Option`), `text.dfy` (module `Text`:
ASCII upper-casing, Python's `s[-n:]`, `str.split` and its inverse `join`),
`specversion.dfy` (module `SpecVersion`), `metadoc.dfy` (module `MetaDoc`).

The registry element is modelled as `Feature(tag, attrs, enums)`:
- `attrs` is a `map<string, string>` of the element's attributes;
- `enums` is the sequence of `Enumerant(name, value)` pairs, in document order,
  that `findall('.//enum')` returns;
- an enumerant's absent `value` is `None`, and it is read as `UNKNOWN`.

Diagnostics are not printed; they are returned as data:
- whether the type warning is logged;
- the names reported as a potential name mismatch, in order;
- whether `UNKNOWN SPEC_VERSION` is printed.

Three details of the generator that the model keeps as written:
- the unrecognised-type line reads `UNRECOGNIZED extension type: <type>`
  (`src/spec/extensionmetadocgenerator.py:112`);
- the warning comment is the first line, before the `[[name]]` anchor (lines 98-99);
- the `UNKNOWN SPEC_VERSION` message is printed whenever the final value is
  `UNKNOWN` (lines 179-180). This includes an exact or suffix match whose `value` is absent or
  literally `UNKNOWN`, not only the case where nothing matched.

One model line is one `write` call. `write` adds a newline after each value it
is given, and an attribute value may itself contain a newline. The line
sequence is therefore exact, but a file's physical line count can be larger
(see "## Left out").

## Model

| member | source | states |
|---|---|---|
| MetaDoc.GetAttrib | src/spec/extensionmetadocgenerator.py:147-151 | the attribute's value when the key is present, the given default otherwise |
| MetaDoc.Resolve | src/spec/extensionmetadocgenerator.py:81-86 | `number` and `contact` default to `UNKNOWN`, `type` and `requires` to absent; the revision is the one `getSpecVersion` resolves |
| SpecVersion.EnumName | src/spec/extensionmetadocgenerator.py:161 | the exact token is the upper-cased name followed by `_SPEC_VERSION`, so it is itself a suffix candidate |
| Text.Upper | src/spec/extensionmetadocgenerator.py:161 | upper-casing keeps the length and upper-cases each ASCII letter in place |
| SpecVersion.ValueOf | src/spec/extensionmetadocgenerator.py:167 | an enumerant contributes its `value`, or `UNKNOWN` when it has none |
| Text.NegativeSlice | src/spec/extensionmetadocgenerator.py:172 | `s[-n:]` is the last `n` characters, or all of `s` when it is shorter |
| SpecVersion.ScanFrom | src/spec/extensionmetadocgenerator.py:163-177 | the loop ends with its starting value `UNKNOWN` or with the value of one of the enumerants, and reports at most one mismatch per enumerant |
| Text.NegativeSliceIsEndsWith | src/spec/extensionmetadocgenerator.py:172 | comparing `s[-n:]` with an `n`-character string is exactly an ends-with test |
| SpecVersion.SuffixTest | src/spec/extensionmetadocgenerator.py:172 | the scan's `thisName[-13:] == '_SPEC_VERSION'` test holds exactly for names ending in `_SPEC_VERSION` |
| SpecVersion.GetSpecVersion | src/spec/extensionmetadocgenerator.py:159-181 | `UNKNOWN SPEC_VERSION` is printed exactly when the result is `UNKNOWN`; every name reported as a potential mismatch ends in `_SPEC_VERSION` and is not the exact token |
| SpecVersion.ExactMatchWins | src/spec/extensionmetadocgenerator.py:161-171 | when an enumerant is named exactly `<NAME>_SPEC_VERSION`, the first such enumerant's value is the revision, whatever suffixed names come before or after it |
| SpecVersion.LastCandidateWins | src/spec/extensionmetadocgenerator.py:165-176 | without an exact token, the revision is the value of the last enumerant whose name ends in `_SPEC_VERSION` |
| SpecVersion.NoCandidateIsUnknown | src/spec/extensionmetadocgenerator.py:163-181 | without any `_SPEC_VERSION` enumerant the revision is `UNKNOWN`, the unknown message is printed and no mismatch is reported |
| SpecVersion.MismatchesBeforeExact | src/spec/extensionmetadocgenerator.py:172-176 | a potential mismatch is reported for exactly the suffixed enumerants met before the first exact token (all of them when there is none), in order |
| SpecVersion.ResolutionCases | src/spec/extensionmetadocgenerator.py:165-177 | every enumerant list falls under one of the three rules: a first exact token, a last suffix candidate, or none |
| SpecVersion.DefaultIgnored | src/spec/extensionmetadocgenerator.py:159-181 | the `default` argument never affects the result |
| Text.Split | src/spec/extensionmetadocgenerator.py:132 | `split(',')` yields at least one piece and no piece contains the separator |
| Text.SplitCount | src/spec/extensionmetadocgenerator.py:132 | there is one more piece than there are separators |
| Text.JoinSplit | src/spec/extensionmetadocgenerator.py:132 | joining the pieces with the separator gives back the original string |
| Text.SplitJoin | src/spec/extensionmetadocgenerator.py:132 | splitting a join of separator-free pieces gives back the pieces |
| MetaDoc.Dependencies | src/spec/extensionmetadocgenerator.py:131-133 | no dependency lines without `requires`, and at least one with it |
| MetaDoc.DependencyCount | src/spec/extensionmetadocgenerator.py:131-133 | with `requires` present there is one dependency line per comma plus one |
| MetaDoc.Render | src/spec/extensionmetadocgenerator.py:97-136 | the document has 16 + k lines (k dependencies), with the warning, anchor, title, blank line, then the six headers each followed by its value line(s), and the dependency lines in the order of `requires` after `Requires Vulkan 1.0` |
| MetaDoc.TypeLine | src/spec/extensionmetadocgenerator.py:106-118 | every type line is indented as a value, and an unrecognised type appears verbatim at its end |
| MetaDoc.TypeLineCases | src/spec/extensionmetadocgenerator.py:106-118 | the type line is `Instance extension` iff the type is `instance`, `Device extension` iff `device`, the placeholder iff the type is absent, and an `UNRECOGNIZED extension type:` line iff any other value is present |
| MetaDoc.ParseRender | src/spec/extensionmetadocgenerator.py:97-136 | reading a rendered document back recovers every attribute it was rendered from |
| MetaDoc.RenderParse | src/spec/extensionmetadocgenerator.py:97-136 | every document the reader accepts is exactly the rendering of what it recovers |
| MetaDoc.RenderInjective | src/spec/extensionmetadocgenerator.py:97-136 | two different attribute sets never render to the same document |
| MetaDoc.OutputPath | src/spec/extensionmetadocgenerator.py:93 | the path is the directory, a `/`, the name and `.txt` |
| MetaDoc.BeginFeature | src/spec/extensionmetadocgenerator.py:68-136 | a non-extension is ignored with no document; an extension without a name yields no document; otherwise the document is the rendering of the resolved attributes, written to `OutputPath`, and the type warning is logged iff `type` is absent |
| MetaDoc.GeneratedRevisionLine | src/spec/extensionmetadocgenerator.py:86-124 | the document's *Revision* line carries the first exact token's value, else the last candidate's value, else `UNKNOWN` |
| MetaDoc.GeneratedAttributeLines | src/spec/extensionmetadocgenerator.py:82-136 | the name, number, dependency and contact lines are read straight from the element's attributes, with the `UNKNOWN` defaults and one dependency line per piece of `requires.split(',')` |
| MetaDoc.BeginFeatureFrame | src/spec/extensionmetadocgenerator.py:72-86 | the outcome depends only on the tag, the enumerants and the `name`, `number`, `type`, `requires` and `contact` attributes |
| MetaDoc.DeviceExampleDocument | src/spec/extensionmetadocgenerator.py:97-136 | a device extension numbered 123 with revision token 4, `requires` `VK_KHR_A,VK_KHR_B` and contact `alice` renders those values in place, with both dependencies in order |
| MetaDoc.BareExtensionExample | src/spec/extensionmetadocgenerator.py:82-136 | an extension with only a name renders the type placeholder, `UNKNOWN` number, revision and contact, and only the Vulkan 1.0 dependency |
| MetaDoc.NonExtensionExample | src/spec/extensionmetadocgenerator.py:75-79 | a feature that is not an extension is ignored |

## Left out

- Opening, writing and closing the output file, and `makeDir` (lines 89-95, 138): file-system I/O. The document is returned as a sequence of lines, and the path as a string.
- `logMsg` and `print`: side-channel output. They are modelled only as the returned diagnostic flags and names.
- The `OutputGenerator` and `GeneratorOptions` base classes, the `generator` module, `beginFile`, `endFile` and `endFeature` (lines 18-36, 62-70, 139-141): framework plumbing outside this model. The options contribute only the output directory, which is a parameter.
- XML traversal (`interface.tag`, `elem.keys()`, `findall('.//enum')`): replaced by the `Feature` datatype. Every enumerant is assumed to have a name.
- Text.Upper: ASCII letters only, because Python's full Unicode `str.upper()` (which can change a string's length) is not modelled. Extension names are ASCII.
- Text encoding: the file is written as UTF-8; the model works on Unicode characters.
- MetaDoc.RenderInjective: holds for the sequence of `write` calls, not for the bytes of the file. Each value is written followed by a newline. A one-piece `requires` value that itself contains a newline and the text of a dependency line can therefore give the same file as a `requires` with one more comma-separated piece. The file text (the lines joined with newlines) is not modelled.
- MetaDoc.Render: its 16 + k counts `write` calls. A file has exactly that many physical lines only when no attribute value contains a newline.
- MetaDoc.RenderParse: likewise speaks of the line sequence, not of a file split back at newlines.
- Determinism (the same record renders to the same document) is not stated as a lemma, because every member is a pure function.
