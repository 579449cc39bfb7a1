/** `EDGAR_Archive` of thingy/processors/extract.py: a filing's documents and
    its header, the header turned into YAML text before it is loaded, and the
    expansion of the archive into a directory of documents plus `meta.json`. */
module Archive {
  import opened Results
  import opened Strings
  import opened Patterns
  import opened FileStore
  import opened Documents

  // ---- header normalisation ------------------------------------------------

  /** One `(spacing, key, value)` match of `HEADER_CONTENTS`: the tabs before
      the key, the key, and the rest of the line. */
  datatype HeaderLine = HeaderLine(spacing: string, key: string, value: string)

  function Spaces(n: nat): (r: string)
    ensures |r| == n && forall k :: 0 <= k < n ==> r[k] == ' '
  {
    seq(n, _ => ' ')
  }

  /** One line of `header_txt`: four spaces per tab, the key and `:`, and the
      stripped value in double quotes only when the value is non-empty. */
  function RenderLine(h: HeaderLine): string
  {
    Spaces(4 * |h.spacing|) + h.key + ":"
    + (if |h.value| > 0 then " \"" + Strip(h.value, IsSpace) + "\"" else "")
  }

  /** `'\n'.join(...)` over the matches, in match order. */
  function RenderHeader(lines: seq<HeaderLine>): string
  {
    Join(seq(|lines|, i requires 0 <= i < |lines| => RenderLine(lines[i])), '\n')
  }

  /** A header line that came from one line of text: neither key nor value
      holds a line break (`[^\n\t]*` and `.*` stop at one). */
  predicate SingleLine(h: HeaderLine)
  {
    '\n' !in h.key && '\n' !in h.value
  }

  lemma RenderLineSingle(h: HeaderLine)
    requires SingleLine(h)
    ensures '\n' !in RenderLine(h)
  {
  }

  /** The normalised header has one line per match, in order: splitting it at
      line breaks gives back exactly the rendered matches. */
  lemma RenderHeaderLines(lines: seq<HeaderLine>)
    requires |lines| > 0
    requires forall i :: 0 <= i < |lines| ==> SingleLine(lines[i])
    ensures Split(RenderHeader(lines), '\n') == seq(|lines|, i requires 0 <= i < |lines| => RenderLine(lines[i]))
  {
    var rendered := seq(|lines|, i requires 0 <= i < |lines| => RenderLine(lines[i]));
    forall i | 0 <= i < |rendered|
      ensures '\n' !in rendered[i]
    {
      RenderLineSingle(lines[i]);
    }
    SplitJoin(rendered, '\n');
  }

  predicate IsIndent(c: char)
  {
    c == ' '
  }

  /** The nesting a rendered line carries: four spaces per tab of the match,
      followed by whatever spaces the key itself starts with (the lazy `.*?`
      and `[^\n\t]*` of `HEADER_CONTENTS` leave leading blanks in the key).
      A key that starts with something else gives YAML one indentation level
      per tab. */
  lemma RenderLineIndent(h: HeaderLine)
    ensures LeadingRun(RenderLine(h), IsIndent) == 4 * |h.spacing| + LeadingRun(h.key, IsIndent)
    ensures (|h.key| == 0 || h.key[0] != ' ') ==> LeadingRun(RenderLine(h), IsIndent) == 4 * |h.spacing|
  {
    var tail := ":" + (if |h.value| > 0 then " \"" + Strip(h.value, IsSpace) + "\"" else "");
    assert RenderLine(h) == Spaces(4 * |h.spacing|) + h.key + tail;
    IndentRun(Spaces(4 * |h.spacing|), h.key, tail);
    if |h.key| > 0 && h.key[0] != ' ' {
      assert LeadingRun(h.key, IsIndent) == 0;
    }
  }

  /** Blanks, then a key, then text that starts with a non-blank: the leading
      blanks are the padding and those the key starts with. */
  lemma IndentRun(pad: string, key: string, tail: string)
    requires forall k :: 0 <= k < |pad| ==> pad[k] == ' '
    requires |tail| > 0 && tail[0] != ' '
    ensures LeadingRun(pad + key + tail, IsIndent) == |pad| + LeadingRun(key, IsIndent)
  {
    var r := pad + key + tail;
    var n, a := |pad|, LeadingRun(key, IsIndent);
    forall k | 0 <= k < n + a
      ensures IsIndent(r[k])
    {
      if k >= n {
        assert r[k] == key[k - n];
      }
    }
    if a < |key| {
      assert r[n + a] == key[a];
    } else {
      assert r[n + a] == tail[0];
    }
    LeadingRunAt(r, IsIndent, n + a);
  }

  /** After the indentation comes the key and `:`; a non-empty value becomes
      a quoted string with the surrounding blanks removed, an empty one leaves
      the key without a value. */
  lemma RenderLineShape(h: HeaderLine)
    ensures var r := RenderLine(h);
            var n := 4 * |h.spacing|;
            && r[n..n + |h.key|] == h.key && r[n + |h.key|] == ':'
            && (|h.value| == 0 ==> |r| == n + |h.key| + 1)
            && (|h.value| > 0 ==> r[n + |h.key| + 1..] == " \"" + Strip(h.value, IsSpace) + "\"")
  {
    var r := RenderLine(h);
    var n := 4 * |h.spacing|;
    var tail := if |h.value| > 0 then " \"" + Strip(h.value, IsSpace) + "\"" else "";
    assert r == Spaces(n) + h.key + ":" + tail;
    assert r[n..n + |h.key|] == h.key;
    assert r[n + |h.key| + 1..] == tail;
  }

  // ---- building the archive ----------------------------------------------

  datatype Archive = Archive(header: Value, documents: seq<Document>)

  /** `self.header` after the header block: `None` without a `HEADER`
      match, else what `yaml.safe_load` makes of the normalised text, where
      `load` stands for the loader and `headerLines` for the
      `HEADER_CONTENTS` scan (`None` from `load` is a `YAMLError`). */
  function LoadHeader(content: string, headerLines: string -> seq<HeaderLine>, load: string -> Option<Value>)
    : Result<Value, Error>
  {
    match HeaderRegion(content)
    case None => Ok(Null)
    case Some(r) =>
      match load(RenderHeader(headerLines(content[r.innerStart..r.innerEnd])))
      case None => Err(HeaderParseError)
      case Some(h) => Ok(h)
  }

  /** The constructor: documents first, then the header, then the two
      emptiness checks, header before documents. */
  function ParseArchive(content: string, headerLines: string -> seq<HeaderLine>, load: string -> Option<Value>)
    : Result<Archive, Error>
  {
    Assemble(FindAll(Current, content), LoadHeader(content, headerLines, load))
  }

  /** The checks of the constructor on its two parts, in its order. */
  function Assemble(docs: Result<seq<Document>, Error>, header: Result<Value, Error>): (r: Result<Archive, Error>)
    ensures r.Ok? ==> Truthy(r.value.header) && |r.value.documents| > 0
    ensures r.Ok? <==> docs.Ok? && header.Ok? && Truthy(header.value) && |docs.value| > 0
    ensures r.Ok? ==> r.value == Archive(header.value, docs.value)
  {
    var documents :- docs;
    var loaded :- header;
    if !Truthy(loaded) then Err(MissingHeader)
    else if |documents| == 0 then Err(MissingDocuments)
    else Ok(Archive(loaded, documents))
  }

  /** The order the constructor's checks fire in, and what each error says
      about the filing: a document without attributes is reported even when
      the header is missing, a missing header even when there are no
      documents, and no documents only when the filing holds no document match. */
  lemma ParseArchiveErrors(content: string, headerLines: string -> seq<HeaderLine>, load: string -> Option<Value>)
    ensures var r := ParseArchive(content, headerLines, load);
            r.Err? ==> r.error in {MissingAttributes, HeaderParseError, MissingHeader, MissingDocuments}
    ensures FindAll(Current, content).Err? ==> ParseArchive(content, headerLines, load) == Err(MissingAttributes)
    ensures ParseArchive(content, headerLines, load) == Err(MissingHeader) <==>
              FindAll(Current, content).Ok? && LoadHeader(content, headerLines, load).Ok?
              && !Truthy(LoadHeader(content, headerLines, load).value)
    ensures ParseArchive(content, headerLines, load) == Err(HeaderParseError) ==>
              FindAll(Current, content).Ok? && HeaderRegion(content).Some?
    ensures ParseArchive(content, headerLines, load) == Err(MissingDocuments) ==>
              HeaderRegion(content).Some? && forall m :: !IsDocumentMatch(content, m)
    ensures ParseArchive(content, headerLines, load) == Err(HeaderParseError) <==>
              FindAll(Current, content).Ok? && LoadHeader(content, headerLines, load).Err?
    ensures ParseArchive(content, headerLines, load) == Err(MissingDocuments) <==>
              FindAll(Current, content) == Ok([]) && LoadHeader(content, headerLines, load).Ok?
              && Truthy(LoadHeader(content, headerLines, load).value)
    ensures ParseArchive(content, headerLines, load).Ok? ==>
              HeaderRegion(content).Some?
              && ParseArchive(content, headerLines, load).value.documents == FindAll(Current, content).value
              && ParseArchive(content, headerLines, load).value.header == LoadHeader(content, headerLines, load).value
  {
    var docs := FindAll(Current, content);
    var header := LoadHeader(content, headerLines, load);
    FindAllNeverMissingText(Current, content);
    if docs == Ok([]) {
      FindAllEmpty(Current, content);
    }
  }

  // ---- meta.json -------------------------------------------------------------

  /** `{document.filename: document.attrs for document in documents}`,
      evaluated in document order: the first document without a file name
      raises, and a later document overwrites an earlier one of the same name. */
  function DocumentsIndex(docs: seq<Document>): (r: Result<map<string, Attrs>, Error>)
    ensures r.Ok? <==> forall i :: 0 <= i < |docs| ==> Filename(docs[i].attrs).Ok?
    ensures r.Ok? ==> r.value.Keys == set i | 0 <= i < |docs| :: Filename(docs[i].attrs).value
  {
    if |docs| == 0 then Ok(map[])
    else
      var init := docs[..|docs| - 1];
      var last := docs[|docs| - 1];
      assert forall i :: 0 <= i < |init| ==> init[i] == docs[i];
      var index :- DocumentsIndex(init);
      var name :- Filename(last.attrs);
      Ok(index[name := last.attrs])
  }

  /** The attributes stored under a name are those of the last document
      with that name. */
  lemma {:induction false} DocumentsIndexLastWins(docs: seq<Document>, i: nat)
    requires i < |docs| && DocumentsIndex(docs).Ok?
    requires forall j :: i < j < |docs| ==> Filename(docs[j].attrs) != Filename(docs[i].attrs)
    ensures DocumentsIndex(docs).value[Filename(docs[i].attrs).value] == docs[i].attrs
  {
    if i < |docs| - 1 {
      var init := docs[..|docs| - 1];
      assert init[i] == docs[i];
      forall j | i < j < |init|
        ensures Filename(init[j].attrs) != Filename(init[i].attrs)
      {
        assert init[j] == docs[j];
      }
      DocumentsIndexLastWins(init, i);
    }
  }

  function AttrsValue(attrs: Attrs): Value
  {
    Dict(map k | k in attrs :: Str(attrs[k]))
  }

  /** The object `json.dump` writes: the loaded header and the index. */
  function Metadata(header: Value, index: map<string, Attrs>): Value
  {
    Dict(map["header" := header, "documents" := Dict(map f | f in index :: AttrsValue(index[f]))])
  }

  const MetaFile: string := "meta.json"

  /** `_save_metadata(parent)`: `meta.json` is opened (and so emptied) before
      the index is built, so a failing index leaves it empty. */
  function MetadataEffect(archive: Archive, parent: Path, files: map<Path, File>): (map<Path, File>, Outcome<Error>)
  {
    var path := JoinPath(parent, MetaFile);
    match DocumentsIndex(archive.documents)
    case Err(e) => (files[path := TextFile("")], Fail(e))
    case Ok(index) => (files[path := JsonFile(Metadata(archive.header, index))], Pass)
  }

  method SaveMetadata(fs: FileSystem, archive: Archive, parent: Path) returns (r: Outcome<Error>)
    modifies fs
    ensures (fs.files, r) == MetadataEffect(archive, parent, old(fs.files))
    ensures fs.dirs == old(fs.dirs)
  {
    var path := JoinPath(parent, MetaFile);
    fs.Write(path, TextFile(""));
    var index := DocumentsIndex(archive.documents);
    if index.Err? {
      return Fail(index.error);
    }
    ghost var emptied := fs.files;
    fs.Write(path, JsonFile(Metadata(archive.header, index.value)));
    assert emptied == old(fs.files)[path := TextFile("")];
    assert fs.files == old(fs.files)[path := JsonFile(Metadata(archive.header, index.value))];
    return Pass;
  }

  // ---- expansion ---------------------------------------------------------------

  /** The loop of `_expand`: documents are saved in order, and the first
      failing save stops it, keeping what was written before. */
  function SaveAll(save: Saving, docs: seq<Document>, files: map<Path, File>): (map<Path, File>, Outcome<Error>)
  {
    if |docs| == 0 then (files, Pass)
    else
      match save(docs[0])
      case Err(e) => (files, Fail(e))
      case Ok(w) => SaveAll(save, docs[1..], files[w.0 := w.1])
  }

  /** The files the loop writes, whatever was there before: one per document
      up to the first failure, a later one replacing an earlier one at the
      same path. */
  function Writes(save: Saving, docs: seq<Document>): map<Path, File>
  {
    if |docs| == 0 then map[]
    else
      match save(docs[0])
      case Err(_) => map[]
      case Ok(w) => map[w.0 := w.1] + Writes(save, docs[1..])
  }

  /** Saving overlays the written files on the old ones and touches nothing
      else; it passes exactly when every document can be saved. */
  lemma {:induction false} SaveAllOverlays(save: Saving, docs: seq<Document>, files: map<Path, File>)
    ensures SaveAll(save, docs, files).0 == files + Writes(save, docs)
    ensures SaveAll(save, docs, files).1.Pass? <==> forall j :: 0 <= j < |docs| ==> save(docs[j]).Ok?
  {
    if |docs| > 0 {
      var rest := docs[1..];
      match save(docs[0])
      case Err(_) =>
      case Ok(w) =>
        SaveAllOverlays(save, rest, files[w.0 := w.1]);
        assert files[w.0 := w.1] + Writes(save, rest) == files + (map[w.0 := w.1] + Writes(save, rest));
        SavesCons(save, docs);
    }
  }

  /** Every document saves exactly when the first does and all the rest do. */
  lemma SavesCons(save: Saving, docs: seq<Document>)
    requires |docs| > 0
    ensures (forall j :: 0 <= j < |docs| ==> save(docs[j]).Ok?) <==>
              save(docs[0]).Ok? && forall j :: 0 <= j < |docs[1..]| ==> save(docs[1..][j]).Ok?
  {
    var rest := docs[1..];
    assert forall j :: 0 <= j < |rest| ==> rest[j] == docs[j + 1];
  }

  /** A failing loop reports the error of the first document that cannot
      be saved. */
  lemma {:induction false} SaveAllFirstFailure(save: Saving, docs: seq<Document>, files: map<Path, File>)
    requires SaveAll(save, docs, files).1.Fail?
    ensures exists i :: 0 <= i < |docs| && save(docs[i]) == Err(SaveAll(save, docs, files).1.error)
                        && forall j :: 0 <= j < i ==> save(docs[j]).Ok?
  {
    var rest := docs[1..];
    match save(docs[0])
    case Err(_) =>
      assert save(docs[0]) == Err(SaveAll(save, docs, files).1.error);
    case Ok(w) =>
      var e := SaveAll(save, docs, files).1.error;
      assert SaveAll(save, docs, files) == SaveAll(save, rest, files[w.0 := w.1]);
      SaveAllFirstFailure(save, rest, files[w.0 := w.1]);
      var i :| 0 <= i < |rest| && save(rest[i]) == Err(e) && forall j :: 0 <= j < i ==> save(rest[j]).Ok?;
      assert save(docs[i + 1]) == Err(e);
      forall j | 0 <= j < i + 1
        ensures save(docs[j]).Ok?
      {
        if j > 0 {
          assert docs[j] == rest[j - 1];
        }
      }
  }

  /** Every path written is the target of one of the documents. */
  lemma {:induction false} WritesTargets(save: Saving, docs: seq<Document>, p: Path)
    requires p in Writes(save, docs)
    ensures exists j :: 0 <= j < |docs| && save(docs[j]).Ok? && save(docs[j]).value.0 == p
  {
    var rest := docs[1..];
    var w := save(docs[0]).value;
    if p != w.0 {
      WritesTargets(save, rest, p);
      var j :| 0 <= j < |rest| && save(rest[j]).Ok? && save(rest[j]).value.0 == p;
      assert rest[j] == docs[j + 1];
    }
  }

  /** When every save succeeds, each document's file is in place unless a
      later document is saved at the same path. */
  lemma {:induction false} WritesLastWins(save: Saving, docs: seq<Document>, i: nat)
    requires i < |docs|
    requires forall j :: 0 <= j < |docs| ==> save(docs[j]).Ok?
    requires forall j :: i < j < |docs| ==> save(docs[j]).value.0 != save(docs[i]).value.0
    ensures save(docs[i]).value.0 in Writes(save, docs)
    ensures Writes(save, docs)[save(docs[i]).value.0] == save(docs[i]).value.1
  {
    var rest := docs[1..];
    assert forall j :: 0 <= j < |rest| ==> rest[j] == docs[j + 1];
    var w := save(docs[i]).value;
    if i == 0 {
      if w.0 in Writes(save, rest) {
        WritesTargets(save, rest, w.0);
      }
    } else {
      WritesLastWins(save, rest, i - 1);
    }
  }

  /** `_expand(target)`. */
  method Expand(fs: FileSystem, archive: Archive, decode: string -> Option<Bytes>, target: Path)
    returns (r: Outcome<Error>)
    modifies fs
    ensures fs.dirs == old(fs.dirs) + {target}
    ensures (fs.files, r) == SaveAll(Saver(Current, decode, target), archive.documents, old(fs.files))
  {
    fs.MakeDir(target);
    var docs := archive.documents;
    var i := 0;
    while i < |docs|
      invariant 0 <= i <= |docs|
      invariant fs.dirs == old(fs.dirs) + {target}
      invariant SaveAll(Saver(Current, decode, target), docs[i..], fs.files)
                == SaveAll(Saver(Current, decode, target), docs, old(fs.files))
    {
      assert docs[i..][0] == docs[i] && docs[i..][1..] == docs[i + 1..];
      var saved := Save(fs, Current, decode, target, docs[i]);
      if saved.Fail? {
        return saved;
      }
      i := i + 1;
    }
    return Pass;
  }

  // ---- process ---------------------------------------------------------------

  /** `process(target)`: expand, then write `meta.json` if that succeeded. */
  function ProcessEffect(archive: Archive, decode: string -> Option<Bytes>, target: Path, files: map<Path, File>)
    : (map<Path, File>, Outcome<Error>)
  {
    var (saved, outcome) := SaveAll(Saver(Current, decode, target), archive.documents, files);
    if outcome.Fail? then (saved, outcome) else MetadataEffect(archive, target, saved)
  }

  method Process(fs: FileSystem, archive: Archive, decode: string -> Option<Bytes>, target: Path)
    returns (r: Outcome<Error>)
    modifies fs
    ensures fs.dirs == old(fs.dirs) + {target}
    ensures (fs.files, r) == ProcessEffect(archive, decode, target, old(fs.files))
  {
    r := Expand(fs, archive, decode, target);
    if r.Pass? {
      r := SaveMetadata(fs, archive, target);
    }
  }

  /** After a successful expansion `meta.json` is always written: the
      metadata step cannot fail, since every document already has a name.
      The result is the documents' files overlaid on the old ones, with
      `meta.json` on top, listing exactly the documents' file names. */
  lemma ProcessResult(archive: Archive, decode: string -> Option<Bytes>, target: Path, files: map<Path, File>)
    requires SaveAll(Saver(Current, decode, target), archive.documents, files).1.Pass?
    ensures var (result, outcome) := ProcessEffect(archive, decode, target, files);
            && outcome.Pass?
            && DocumentsIndex(archive.documents).Ok?
            && DocumentsIndex(archive.documents).value.Keys
               == (set i | 0 <= i < |archive.documents| :: Filename(archive.documents[i].attrs).value)
            && result == (files + Writes(Saver(Current, decode, target), archive.documents))
                         [JoinPath(target, MetaFile) := JsonFile(Metadata(archive.header, DocumentsIndex(archive.documents).value))]
  {
    var docs := archive.documents;
    var save := Saver(Current, decode, target);
    SaveAllOverlays(save, docs, files);
    forall j | 0 <= j < |docs|
      ensures Filename(docs[j].attrs).Ok?
    {
      assert save(docs[j]).Ok?;
    }
  }

  /** Processing the same archive into the same directory twice leaves the
      same files as processing it once. */
  lemma ProcessIdempotent(archive: Archive, decode: string -> Option<Bytes>, target: Path, files: map<Path, File>)
    ensures var once := ProcessEffect(archive, decode, target, files);
            ProcessEffect(archive, decode, target, once.0) == once
  {
    var docs := archive.documents;
    var save := Saver(Current, decode, target);
    var w := Writes(save, docs);
    var once := ProcessEffect(archive, decode, target, files);
    SaveAllOverlays(save, docs, files);
    SaveAllOverlays(save, docs, once.0);
    SaveAllOutcome(save, docs, files, once.0);
    assert files + w + w == files + w;
    if SaveAll(save, docs, files).1.Pass? {
      assert once == MetadataEffect(archive, target, files + w);
      MetadataEffectOverlay(archive, target, files + w, w);
    }
  }

  /** Whether the loop passes, and with which error it fails, does not
      depend on the files already there. */
  lemma {:induction false} SaveAllOutcome(save: Saving, docs: seq<Document>, f: map<Path, File>, g: map<Path, File>)
    ensures SaveAll(save, docs, f).1 == SaveAll(save, docs, g).1
  {
    if |docs| > 0 && save(docs[0]).Ok? {
      var w := save(docs[0]).value;
      SaveAllOutcome(save, docs[1..], f[w.0 := w.1], g[w.0 := w.1]);
    }
  }

  /** Files written after `meta.json` are overwritten by writing it again. */
  lemma MetadataEffectOverlay(archive: Archive, parent: Path, files: map<Path, File>, w: map<Path, File>)
    ensures MetadataEffect(archive, parent, MetadataEffect(archive, parent, files).0 + w)
            == MetadataEffect(archive, parent, files + w)
  {
    var path := JoinPath(parent, MetaFile);
    var m := MetadataEffect(archive, parent, files).0[path];
    assert MetadataEffect(archive, parent, files).0 == files[path := m];
    assert (files[path := m] + w)[path := m] == (files + w)[path := m];
  }
}
