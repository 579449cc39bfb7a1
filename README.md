# EDGAR filing extraction, modelled in Dafny

This project models the extraction engine that splits an SEC EDGAR full-text
filing into its documents. The engine comes in two variants, and both are
modelled:

- `thingy/processors/extract.py` is the current variant. Its classes are
  `_EDGAR_Document` and `EDGAR_Archive`.
- `extract.py` is the older script. Its classes are `EDGAR_Document` and
  `EDGAR_Archive_10K`.

A filing is one string. The engine cuts it into `<document>` fragments.
For each fragment it reads the `<TAG>value` attribute lines and the
`<text>` payload, names the document's file, and decides whether the
payload is a uuencoded binary. It then writes every document into a target
directory:

- The current variant turns the `<sec-header>` block into YAML and writes
  `meta.json`, which maps each file name to the document's attributes.
- The older variant keeps the raw header text and groups an HTML link to
  every document by the document's `TYPE`.

Modules:

- `Results`: the `Option`, `Result` and `Outcome` wrappers. An exception
  the source raises is an `Err` or a `Fail` here.
- `Strings`: the character classes and the string scanning shared by the
  patterns. This covers leftmost and rightmost literal search, strip,
  replace, split and join.
- `Patterns`: every regular expression of both variants except
  `HEADER_CONTENTS` (a parameter, see below), written as an explicit
  scanner. Each scanner has a lemma proving it finds the match the regex is
  defined to find. Examples are the leftmost start with the
  longest greedy group, the leftmost shortest lazy match, and the shape of
  an accepted attribute line.
- `FileStore`: the part of the file system the engine changes. It is a
  `FileSystem` class whose `dirs` and `files` fields are updated by
  `MakeDir` and `Write`.
- `Documents`: one document, as both variants build it. This covers the
  attribute map, the payload, the `filename` rule, `get_html_link`, `save`
  and `find_all`. A document never changes once built, so it is a
  datatype. Building it is a function that returns the document or the
  error its constructor raises.
- `Archive`: `EDGAR_Archive`. This covers header normalisation, the
  constructor's checks in their order, `_expand`, `_save_metadata` and
  `process`. The loops are methods proved against recursive specification
  functions.
- `Archive10K`: `EDGAR_Archive_10K`. This covers the constructor, and the
  loop in `expand` that saves the documents and groups their links by type.

Three foreign pieces are passed in as function parameters, so every
property holds whatever they do:

- `headerLines` stands for the `HEADER_CONTENTS` regex. It gives the
  `(spacing, key, value)` triples of a header.
- `load` stands for `yaml.safe_load`. `None` stands for a `YAMLError`.
- `decode` stands for the `uu` codec. `None` stands for a payload the codec
  rejects.

## Behaviour of the code worth knowing

The model follows the code in each of these cases.

- **Check order in a document.** Both variants raise "Unable to find
  attrs" before "Unable to find text" (thingy/processors/extract.py:81-84,
  extract.py:46-49).
- **"Unable to find text" cannot be raised.** A fragment matched by the
  document pattern always holds a non-empty payload.
  `Documents.FindAllNeverMissingText` proves that the only error
  `find_all` raises is the missing-attributes one.
- **Check order in an archive.** Both constructors check the header first,
  and only then the documents (thingy/processors/extract.py:147-150,
  extract.py:126-129).
- **Empty header.** An empty loaded header raises "Unable to find header",
  just as a missing header block does; it is not a YAML error.
- **Dots in a description.** `strip(".")` removes every leading and every
  trailing dot, not only a trailing one. Every `/` becomes `-`.
- **Uuencode test.** The two variants' patterns differ, and no payload
  passes both (`Patterns.UuencodedVariantsDisjoint`):
  - the current pattern is compiled with VERBOSE, which drops the space
    after `begin`, so it asks for blanks, `begin` directly followed by
    digits, anything, `end`, blanks;
  - the older pattern asks for blanks, `begin `, digits, a space, anything,
    `end`, blanks.

  The current variant therefore writes a payload with a conventional
  `begin 644 name` line as text; see "## Findings".

## Model

| member | source | states |
|---|---|---|
| `Patterns.SearchRegion` | thingy/processors/extract.py:52-55 | a `<open>(.*)</close>` match starts with the open tag, ends with the close tag no earlier than the end of the open tag, and its group lies between the two |
| `Patterns.SearchRegionIsLeftmostGreedy` | thingy/processors/extract.py:52-55 | `TextRegion` and `HeaderRegion`, `search` of `<open>(.*)</close>`: a match is found exactly when one exists; it is the leftmost one, and among those starting there it has the longest group |
| `Patterns.NextDocument` | thingy/processors/extract.py:43-46 | a found document match has its four tags in order, a non-empty text section, and starts at or after the search position |
| `Patterns.NextDocumentIsLeftmostShortest` | extract.py:29 | the lazy document pattern finds a match exactly when one starts at or after the position; it starts leftmost and ends no later than any other such match |
| `Patterns.DocumentMatches` | thingy/processors/extract.py:119-124 | `findall` reports something exactly when a search from the start position finds a match, and every reported match lies at or after that position and inside the text |
| `Patterns.CollectInOrder` | thingy/processors/extract.py:119-124 | repeating a step that only finds document matches collects document matches in order of appearance, none overlapping the next |
| `Patterns.DocumentMatchesAreMatches` | thingy/processors/extract.py:43-46 | everything `DOCUMENT.findall` reports is a match of the document pattern, in order and without overlap |
| `Patterns.DocumentMatchesComplete` | extract.py:86 | `findall` skips no match: every match of the document pattern at or after the start position begins inside some reported match, between its `<document>` and the end of its `</document>` |
| `Patterns.CollectCovers` | thingy/processors/extract.py:123 | repeating a search step that, from every position up to `q`, finds a match starting no later than `q` reports a match whose span covers `q` |
| `Patterns.FragmentHasPayload` | thingy/processors/extract.py:45 | every matched fragment contains a text region with a non-empty payload |
| `Patterns.FragmentsHavePayload` | thingy/processors/extract.py:122-124 | every fragment `find_all` hands to the document constructor has a non-empty payload |
| `Patterns.AttrLineRoundTrip` | thingy/processors/extract.py:47-51 | a line `<key>value` with a non-empty key and value is read back as `(key, value)` (current: no `>` after the key's first character; older: word characters only) |
| `Patterns.AttrLineShape` | extract.py:30 | every accepted line has the form `<key>value` with a non-empty key and value; an older-script key consists of word characters |
| `Patterns.CurrentRoundTrip` | thingy/processors/extract.py:47-51 | `CurrentAttrLine`: `<key>value` with a non-empty key holding no `>` after its first character and a non-empty value reads back as `(key, value)` |
| `Patterns.CurrentShape` | thingy/processors/extract.py:48-51 | `CurrentAttrLine`: every accepted line is `<` + key + `>` + value, with a non-empty key holding no `>` after its first character and a non-empty value |
| `Patterns.LegacyRoundTrip` | extract.py:30 | `LegacyAttrLine`: `<key>value` with a non-empty all-word-character key and a non-empty value reads back as `(key, value)` |
| `Patterns.LegacyShape` | extract.py:30 | `LegacyAttrLine`: every accepted line is `<` + key + `>` + value, with a non-empty all-word-character key and a non-empty value |
| `Patterns.UuencodedIff` | thingy/processors/extract.py:56-59 | `Uuencoded` (and so `IsUuencoded` of either variant) accepts a payload exactly when its pattern can match it: blanks, `begin` (directly followed by the digits in the current, VERBOSE, pattern; followed by a space in the older one), digits (then a space, in the older one), anything, `end`, blanks |
| `Patterns.UuencodedVariantsDisjoint` | extract.py:32 | no payload is detected as uuencoded by both variants: after `begin` the current pattern needs a digit where the older one needs a space |
| `Patterns.CurrentMissesModeLine` | thingy/processors/extract.py:56-57 | the current pattern as compiled rejects `begin 644 a` / `M` / `end`, a payload with a conventional mode line |
| `Patterns.IntendedAcceptsModeLine` | thingy/processors/extract.py:57 | the pattern read as its comment describes it (space kept) accepts that payload |
| `Patterns.LegacyUuencodedIsIntended` | extract.py:32 | every payload the older pattern accepts is accepted by the pattern read as its comment describes it |
| `Documents.AttrPairs` | thingy/processors/extract.py:75-77 | `ATTRS.findall` yields at most one pair per line, each of the accepted shape; the order is given by `AttrPairsConcat` |
| `Documents.AttrPairsConcat` | thingy/processors/extract.py:75-77 | the scan runs line by line in order: the pairs of two blocks of lines are the first block's pairs followed by the second's, and one line gives its own pair or none (`AttrPairsOne`) |
| `Documents.AttrPairsMembers` | thingy/processors/extract.py:75-77 | a pair is yielded exactly when some line is accepted and read as that `(key, value)` |
| `Documents.AttrMap` | thingy/processors/extract.py:75 | the attribute keys are exactly the upper-cased keys of the pairs |
| `Documents.AttrMapValues` | extract.py:36-38 | every stored value is the value of a pair with that upper-cased key |
| `Documents.AttrMapLastWins` | thingy/processors/extract.py:75-77 | a later pair with the same upper-cased key overwrites an earlier one |
| `Documents.AttrLinesLastWins` | thingy/processors/extract.py:75-77 | over the scanned lines: the value stored under `Upper(k)` is that of the last accepted line whose key upper-cases to it |
| `Documents.AttributesLastWins` | extract.py:36-38 | `Attributes`: when line `i` of the text reads as `(k, x)` and no later accepted line has a key with the same upper-case form, `attrs[k.upper()]` is `x` |
| `Documents.AttributesWellFormed` | extract.py:36-38 | `Attributes`: every stored key is non-empty and upper-case, every value is non-empty, and an older-script key is all word characters |
| `Documents.AttributeKeys` | thingy/processors/extract.py:75-77 | `Attributes`: a key is stored exactly when some line of the scanned text is accepted and its key upper-cases to it |
| `Documents.LineBecomesAttribute` | extract.py:30 | a `<TAG>value` line standing on a line of its own in the scanned text (first, last, or between two line breaks) yields the attribute `TAG.upper()` |
| `Documents.PayloadIsLeftmostGreedy` | thingy/processors/extract.py:69-70 | `Payload` is the group of the text match that starts leftmost and, from there, extends furthest, over all ways `<text>(.*)</text>` can match; it is empty when none can |
| `Documents.ParseDocument` | thingy/processors/extract.py:64-84 | a document is built exactly when the attribute map and the payload are non-empty, and it holds that map and payload; otherwise the error is missing attributes if the map is empty, else missing text |
| `Documents.ParsedDocumentWellFormed` | extract.py:34-49 | a built document's text is the text-region group of its fragment, its keys are non-empty and upper-case with non-empty values, and an older-script key is all word characters |
| `Documents.FirstTagAt` | thingy/processors/extract.py:53 | an opening tag with no earlier occurrence is where the leftmost search stops |
| `Documents.LastTagAt` | thingy/processors/extract.py:55 | a closing tag with no later occurrence is where the greedy group ends |
| `Documents.TagsDoNotOverlap` | extract.py:31 | two occurrences of a tag cannot overlap |
| `Documents.CutOutRegion` | thingy/processors/extract.py:52-55 | with no `<text>` before and no `</text>` after, the text pattern matches exactly the `<text>…</text>` written between them |
| `Documents.PayloadIsCutOut` | thingy/processors/extract.py:69-73 | for `pre <text> body </text> post`, the payload is `body` and `AttrSource` of the current variant is `pre + post`, the text the attributes are read from |
| `Documents.PayloadLinesAndVariants` | extract.py:36-42 | the current variant's attributes do not depend on the payload, while the older script takes a `<TAG>value` line inside the payload as an attribute |
| `Documents.ParseAll` | thingy/processors/extract.py:122-124 | a successful `find_all` yields one document per fragment |
| `Documents.ParseAllOk` | thingy/processors/extract.py:122-124 | each document of a successful `find_all` is the one its fragment builds, in fragment order |
| `Documents.FindAllDocuments` | extract.py:84-87 | `FindAll`: a successful `find_all` holds one document per document match, in order, each the one its fragment builds |
| `Documents.ParseAllFirstError` | extract.py:84-87 | a failing `find_all` raises the error of the first fragment that fails, and every earlier fragment builds |
| `Documents.FindAllNeverMissingText` | thingy/processors/extract.py:81-84 | the only error `find_all` can raise is missing attributes |
| `Documents.FindAllEmpty` | thingy/processors/extract.py:149-150 | an empty document list means the filing holds no document match at all |
| `Documents.Filename` | thingy/processors/extract.py:86-92 | `FILENAME` verbatim when present; otherwise the description's stem plus `.html`; otherwise `TYPE.SEQUENCE`; a name exists exactly when one of the three applies, and a failure names `TYPE` if it is absent, else `SEQUENCE` |
| `Documents.DescribedFilename` | thingy/processors/extract.py:90-91 | a name taken from `DESCRIPTION` ends in `.html`, holds no `/`, is the description's stem before `.html`, and is joined directly under a non-empty parent |
| `Documents.DescriptionStemShape` | thingy/processors/extract.py:91 | `DescriptionStem`: the stem holds no `/`, neither starts nor ends with `.`, and is the description without its runs of dots at both ends, with `/` replaced by `-` |
| `Documents.DescriptionStemKeeps` | extract.py:56 | a description with no `/` and no dot at either end is its own stem |
| `Documents.HtmlLinkTarget` | thingy/processors/extract.py:113-116 | `HtmlLink`: a link exists exactly when the file name does, and its `href` reads back as that file name |
| `Documents.HtmlLinkParts` | thingy/processors/extract.py:113-116 | `HtmlLink` reads back whole (`LinkParts`): the `href` and the trailing `(name)` are the file name, and the bold label is `DESCRIPTION`, or the file name when there is none |
| `Documents.SaveEffect` | thingy/processors/extract.py:94-111 | the target is the file name under the parent; a payload the variant's uuencode test accepts is written decoded in byte mode, any other verbatim in text mode; a decode error arises only for a named detected payload the codec rejects |
| `Documents.Save` | extract.py:59-76 | `save` writes exactly the file `SaveEffect` describes, or nothing when it raises |
| `FileStore.JoinStaysInside` | thingy/processors/extract.py:96 | a relative name joined to a directory lies inside it, and different names give different paths |
| `FileStore.FileSystem.MakeDir` | thingy/processors/extract.py:159 | the directory is added and no file changes |
| `FileStore.FileSystem.Write` | thingy/processors/extract.py:110-111 | the path now holds the written file and every other path is unchanged |
| `Archive.RenderHeaderLines` | thingy/processors/extract.py:137-140 | `RenderHeader`: the normalised header has one line per header match, in order, each the `RenderLine` of that match |
| `Archive.RenderLineIndent` | thingy/processors/extract.py:138 | `RenderLine`: a rendered line starts with four spaces per tab of its match followed by the blanks the key starts with; exactly four per tab when the key starts with anything else |
| `Archive.RenderLineShape` | thingy/processors/extract.py:138 | after the indentation come the key and `:`; a non-empty value follows as ` "<value stripped>"`, and an empty one adds nothing |
| `Archive.RenderLineSingle` | thingy/processors/extract.py:33-42 | a match from one line renders to one line |
| `Archive.Assemble` | thingy/processors/extract.py:147-150 | an archive is built exactly when both parts loaded, the header is truthy and there is a document, and it is then the loaded header with the parsed documents |
| `Archive.ParseArchiveErrors` | thingy/processors/extract.py:129-150 | `ParseArchive` and `LoadHeader`: document errors come first and are always missing attributes; a YAML error holds exactly when the documents parse and the header fails to load; missing header exactly when the documents parse and the loaded header is falsy; missing documents exactly when no document is found and the loaded header is truthy, which implies a header block and no document match; a built archive holds `FindAll`'s documents and `LoadHeader`'s value |
| `Archive.DocumentsIndex` | thingy/processors/extract.py:169-171 | the index exists exactly when every document has a file name, and its keys are exactly those file names |
| `Archive.DocumentsIndexLastWins` | thingy/processors/extract.py:170 | a name is mapped to the attributes of the last document with that name |
| `Archive.SaveMetadata` | thingy/processors/extract.py:164-172 | `MetadataEffect`: `meta.json` is emptied first and then holds the header and the index; a failing index leaves it empty |
| `Archive.SaveAllOverlays` | thingy/processors/extract.py:161-162 | `SaveAll`: saving overlays the written files on the old ones and touches nothing else; it passes exactly when every document saves |
| `Archive.SaveAllFirstFailure` | thingy/processors/extract.py:161-162 | a failing loop reports the error of the first document that cannot be saved, all earlier ones having been saved |
| `Archive.SaveAllOutcome` | thingy/processors/extract.py:161-162 | whether the loop passes, and its error, do not depend on the files already present |
| `Archive.WritesTargets` | thingy/processors/extract.py:162 | every path written is the target of one of the documents |
| `Archive.WritesLastWins` | thingy/processors/extract.py:161-162 | each document's file is in place unless a later document is saved at the same path |
| `Archive.Expand` | thingy/processors/extract.py:158-162 | `_expand` creates the target and leaves the files and outcome of saving the documents in order |
| `Archive.Process` | thingy/processors/extract.py:154-156 | `process` leaves the files and outcome `ProcessEffect` describes: it expands and then writes `meta.json` only if the expansion passed |
| `Archive.ProcessResult` | thingy/processors/extract.py:154-172 | after a passing expansion, metadata cannot fail, its index keys are exactly the documents' file names, and the result is the written files with `meta.json` on top |
| `Archive.ProcessIdempotent` | thingy/processors/extract.py:154-156 | processing twice into the same directory leaves the same files and outcome as processing once |
| `Archive.MetadataEffectOverlay` | thingy/processors/extract.py:165 | rewriting `meta.json` after other writes gives the same files as writing it once after them |
| `Archive10K.Assemble10K` | extract.py:118-129 | an archive is built exactly when the documents were found, the header is present and non-empty and there is a document, and it then holds that header and those documents |
| `Archive10K.ParseArchive10KErrors` | extract.py:118-129 | `ParseArchive10K`: document errors come first and are always missing attributes; missing header holds exactly when the documents parse and the header block is absent or empty; missing documents exactly when no document is found and the header is non-empty, which implies no document match; the archive is built exactly when documents and a non-empty header are found, and holds them |
| `Archive10K.RawHeaderIsLeftmostGreedy` | extract.py:123-124 | `RawHeader` is absent exactly when the header pattern cannot match, and otherwise is the group of the match that starts leftmost and extends furthest |
| `Archive10K.Touch` | extract.py:140 | a lookup in the `defaultdict` creates an empty list for the type and changes no other list |
| `Archive10K.Append` | extract.py:140 | appending adds the link to the end of its type's list and changes no other list |
| `Archive10K.SavedDocumentHasLink` | extract.py:139-140 | a document that was saved can be linked |
| `Archive10K.ExpandLoopPasses` | extract.py:138-140 | `ExpandLoop` completes exactly when every document saves, has a `TYPE` and has a link, and then it writes the same files as the current variant's loop |
| `Archive10K.ExpandLoopGroups` | extract.py:136-140 | after a complete loop each type's list is the old list followed by the links of that type's documents in document order; a type has a list exactly when it had one or a document has it |
| `Archive10K.Expand` | extract.py:133-140 | `expand` creates the target, saves the documents in order and groups their links, stopping at the first error |
| `Archive10K.ExpandGroupsByType` | extract.py:133-140 | after a complete expansion, each listed type is listed once, each type's list holds its documents' links in order, the types listed are exactly the documents' types, and every document's file is written |

## Left out

- Reading the filing, `open` modes, text encodings and `json.dump`'s
  serialisation are not modelled. A written file is a value: text, bytes or
  a JSON value.
- A `TypeError` that `json.dump` raises on a value YAML can load but JSON
  cannot hold is not modelled. Such a value would leave `meta.json` partly
  written. `Archive.SaveMetadata` always writes the whole value.
- `FileStore.FileSystem.Write` always succeeds, while `open` raises when
  the file name holds a `/` that leads into a missing directory, or when
  the target cannot be written. For example, a document with `TYPE`
  `10-K/A`, `SEQUENCE` `1` and neither `FILENAME` nor `DESCRIPTION` is
  named `10-K/A.1`, and saving it fails unless `10-K` exists under the
  target. The model writes the file at that path instead.
- `Documents.HtmlLinkParts` reads a link back only when the file name holds
  no `"` and the label no `<`. Otherwise the link text itself does not show
  where they end. `HtmlLink` builds the link in every case.
- `mkdir` failures (a missing parent, a file in the way, permissions) are
  not modelled. `FileStore.FileSystem.MakeDir` always succeeds.
- `pathlib` normalisation is not modelled. `FileStore.JoinPath` covers an
  absolute name, an empty name and an empty parent, but not `..` or
  repeated `/`.
- The `HEADER_CONTENTS` regex is a parameter (`headerLines`) because it
  relies on the `regex` module's duplicate named groups. `yaml.safe_load`
  is a parameter (`load`). `Archive.RenderLineSingle` and
  `Archive.RenderHeaderLines` assume, as a requires, that each triple came
  from one line.
- The uu codec is a parameter (`decode`). Only the detection and the choice
  of mode are modelled.
- Case handling covers part of Unicode only:
  - `IGNORECASE` folding covers the ASCII letters plus U+017F (LONG S),
    the one non-ASCII character that folds onto a letter of the tags.
  - `str.upper()` on attribute keys covers the ASCII letters only.
  - `\w` and `\d` cover their ASCII members only.
- `\s` is Python's `str.isspace()` set. The `regex` module of the current
  variant leaves out U+001C–U+001F, which this model counts as blanks.
- Logging (`structlog`) has no effect on results and is left out.
- The older script's `index.html` is not modelled. This covers
  `TEMPLATE_ENGINE`, `html_escape` and the rendering after the loop of
  `expand` (extract.py:92-116, 142-149). `Archive10K.Expand` returns the
  link groups the template would receive.
- The older script's `main` glob loop is not modelled.
- The constructors of the documents and archives are functions returning
  `Result`, not classes whose fields are set. The objects are never changed
  after construction, so only the outcome of construction is modelled.
- `cli.py`, `download.py`, `thingy/processors/__init__.py` and
  `thingy/processors/html.py` are not part of this model. They are command
  wiring, network download, batch driving and site rendering.

## Findings

| source | as written | input that shows it | evidently intended | confidence | as-written member | corrected member |
|---|---|---|---|---|---|---|
| thingy/processors/extract.py:56-59 | the pattern is compiled with VERBOSE, which drops the unescaped space in `begin \d+`, so it matches `^\s*begin\d+.*end\s*$` and needs the mode digits directly after `begin` | the payload `begin 644 a` / `M` / `end` is not detected, so `save` writes it as text instead of decoding it | `begin`, a space, then the mode digits, as the pattern's own comment and the older script read it | not executed | `Patterns.CurrentMissesModeLine` | `Patterns.IntendedAcceptsModeLine` |

`Patterns.IsUuencoded` and `Documents.SaveEffect` follow the code as
written. The intended reading is `Patterns.IntendedTest`; it accepts every
payload the older script accepts (`Patterns.LegacyUuencodedIsIntended`),
and `Patterns.UuencodedIff` characterises it like the other two tests.
