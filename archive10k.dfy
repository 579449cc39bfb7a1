/** `EDGAR_Archive_10K` of extract.py, the older script: the filing's raw
    header text and its documents, and the expansion loop that saves every
    document and groups an HTML link to each by the document's `TYPE`. */
module Archive10K {
  import opened Results
  import opened Patterns
  import opened FileStore
  import opened Documents
  import Archive

  datatype Archive10K = Archive10K(header: string, documents: seq<Document>)

  /** `self.header`: the text between the first `<sec-header>` and the last
      `</sec-header>`, unparsed, or `None` without a match. */
  function RawHeader(content: string): Option<string>
  {
    match HeaderRegion(content)
    case None => None
    case Some(r) => Some(content[r.innerStart..r.innerEnd])
  }

  /** The constructor: documents first, then the header (missing or empty),
      then the documents. */
  function ParseArchive10K(content: string): Result<Archive10K, Error>
  {
    Assemble10K(FindAll(Legacy, content), RawHeader(content))
  }

  function Assemble10K(docs: Result<seq<Document>, Error>, header: Option<string>): (r: Result<Archive10K, Error>)
    ensures r.Ok? ==> |r.value.header| > 0 && |r.value.documents| > 0
    ensures r.Ok? <==> docs.Ok? && header.Some? && |header.value| > 0 && |docs.value| > 0
    ensures r.Ok? ==> r.value == Archive10K(header.value, docs.value)
  {
    var documents :- docs;
    if header.None? || |header.value| == 0 then Err(MissingHeader)
    else if |documents| == 0 then Err(MissingDocuments)
    else Ok(Archive10K(header.value, documents))
  }

  /** The raw header is absent exactly when `<sec-header>(.*)</sec-header>`
      cannot match; otherwise it is the group of the match that starts
      leftmost and, from there, extends furthest. */
  lemma RawHeaderIsLeftmostGreedy(content: string)
    ensures RawHeader(content).None? <==> forall o: nat, c: nat :: !IsRegion(content, HeaderOpen, HeaderClose, o, c)
    ensures RawHeader(content).Some? ==>
              exists o: nat, c: nat ::
                && IsRegion(content, HeaderOpen, HeaderClose, o, c)
                && RawHeader(content).value == content[o + |HeaderOpen|..c]
                && forall o': nat, c': nat :: IsRegion(content, HeaderOpen, HeaderClose, o', c') ==>
                     o <= o' && (o' == o ==> c' <= c)
  {
    SearchRegionIsLeftmostGreedy(content, HeaderOpen, HeaderClose);
    if HeaderRegion(content).Some? {
      var r := HeaderRegion(content).value;
      assert IsRegion(content, HeaderOpen, HeaderClose, r.start, r.innerEnd);
    }
  }

  /** The order the constructor's checks fire in, and what each error says
      about the filing. */
  lemma ParseArchive10KErrors(content: string)
    ensures ParseArchive10K(content).Err? ==>
              ParseArchive10K(content).error in {MissingAttributes, MissingHeader, MissingDocuments}
    ensures FindAll(Legacy, content).Err? ==> ParseArchive10K(content) == Err(MissingAttributes)
    ensures ParseArchive10K(content) == Err(MissingHeader) <==>
              FindAll(Legacy, content).Ok?
              && (HeaderRegion(content).None? || RawHeader(content) == Some(""))
    ensures ParseArchive10K(content) == Err(MissingDocuments) ==> forall m :: !IsDocumentMatch(content, m)
    ensures ParseArchive10K(content) == Err(MissingDocuments) <==>
              FindAll(Legacy, content) == Ok([]) && RawHeader(content).Some? && |RawHeader(content).value| > 0
    ensures ParseArchive10K(content).Ok? <==>
              FindAll(Legacy, content).Ok? && |FindAll(Legacy, content).value| > 0
              && RawHeader(content).Some? && |RawHeader(content).value| > 0
    ensures ParseArchive10K(content).Ok? ==>
              && ParseArchive10K(content).value.documents == FindAll(Legacy, content).value
              && Some(ParseArchive10K(content).value.header) == RawHeader(content)
  {
    var docs := FindAll(Legacy, content);
    FindAllNeverMissingText(Legacy, content);
    if docs == Ok([]) {
      FindAllEmpty(Legacy, content);
    }
  }

  // ---- the link groups ---------------------------------------------------

  /** `file_hrefs`, a `defaultdict(list)`: the link lists by type, and the
      types in the order they were first looked up. */
  datatype Links = Links(types: seq<string>, byType: map<string, seq<string>>)
  {
    /** Each type with a list is listed exactly once. */
    ghost predicate Valid()
    {
      && (forall i, j :: 0 <= i < j < |types| ==> types[i] != types[j])
      && (forall t :: t in byType <==> t in types)
    }

    /** `file_hrefs[t]` read without appending. */
    function Get(t: string): seq<string>
    {
      if t in byType then byType[t] else []
    }
  }

  const NoLinks: Links := Links([], map[])

  /** Looking `t` up in the `defaultdict` creates an empty list for it. */
  function Touch(g: Links, t: string): (r: Links)
    ensures g.Valid() ==> r.Valid()
    ensures t in r.byType && r.Get(t) == g.Get(t)
    ensures forall u :: u != t ==> r.Get(u) == g.Get(u)
    ensures r.byType.Keys == g.byType.Keys + {t}
  {
    if t in g.byType then g else Links(g.types + [t], g.byType[t := []])
  }

  /** `file_hrefs[t].append(link)`. */
  function Append(g: Links, t: string, link: string): (r: Links)
    ensures g.Valid() ==> r.Valid()
    ensures r.Get(t) == g.Get(t) + [link]
    ensures forall u :: u != t ==> r.Get(u) == g.Get(u)
    ensures r.byType.Keys == g.byType.Keys + {t}
  {
    var h := Touch(g, t);
    Links(h.types, h.byType[t := h.byType[t] + [link]])
  }

  /** The document's type, if it has one. */
  function TypeOf(d: Document): Option<string>
  {
    if "TYPE" in d.attrs then Some(d.attrs["TYPE"]) else None
  }

  /** The loop of `expand`: save the document, look up its `TYPE` (a
      `KeyError` after the file is written), create the type's list, then
      append the document's link. The first failure stops the loop. */
  function ExpandLoop(save: Saving, docs: seq<Document>, files: map<Path, File>, links: Links)
    : (map<Path, File>, Links, Outcome<Error>)
  {
    if |docs| == 0 then (files, links, Pass)
    else
      var d := docs[0];
      match save(d)
      case Err(e) => (files, links, Fail(e))
      case Ok(w) =>
        var written := files[w.0 := w.1];
        if "TYPE" !in d.attrs then (written, links, Fail(MissingKey("TYPE")))
        else
          var t := d.attrs["TYPE"];
          match HtmlLink(d.attrs)
          case Err(e) => (written, Touch(links, t), Fail(e))
          case Ok(link) => ExpandLoop(save, docs[1..], written, Append(links, t, link))
  }

  /** The links of the documents of type `t`, in document order. */
  function LinksOfType(docs: seq<Document>, t: string): seq<string>
  {
    if |docs| == 0 then []
    else
      (if TypeOf(docs[0]) == Some(t) && HtmlLink(docs[0].attrs).Ok? then [HtmlLink(docs[0].attrs).value] else [])
      + LinksOfType(docs[1..], t)
  }

  /** A document that can be saved can also be linked: both need its file
      name, and saving works it out first. */
  lemma SavedDocumentHasLink(decode: string -> Option<Bytes>, target: Path, d: Document)
    requires Saver(Legacy, decode, target)(d).Ok?
    ensures HtmlLink(d.attrs).Ok?
  {
    HtmlLinkTarget(d.attrs);
  }

  /** The loop completes exactly when every document can be saved, has a
      type and has a link; the files it leaves are then those the current
      variant's expansion leaves. */
  lemma {:induction false} ExpandLoopPasses(save: Saving, docs: seq<Document>, files: map<Path, File>, links: Links)
    ensures ExpandLoop(save, docs, files, links).2.Pass? <==>
              forall j :: 0 <= j < |docs| ==> save(docs[j]).Ok? && TypeOf(docs[j]).Some? && HtmlLink(docs[j].attrs).Ok?
    ensures ExpandLoop(save, docs, files, links).2.Pass? ==>
              ExpandLoop(save, docs, files, links).0 == Archive.SaveAll(save, docs, files).0
  {
    if |docs| > 0 {
      var rest := docs[1..];
      assert forall j :: 0 <= j < |rest| ==> rest[j] == docs[j + 1];
      var d := docs[0];
      if save(d).Ok? && TypeOf(d).Some? && HtmlLink(d.attrs).Ok? {
        var w := save(d).value;
        ExpandLoopPasses(save, rest, files[w.0 := w.1], Append(links, d.attrs["TYPE"], HtmlLink(d.attrs).value));
      }
    }
  }

  /** The grouping: after a complete loop the list of type `t` is the list it
      had, followed by the links of the documents of type `t` in document
      order, and a type has a list exactly when it had one or some document
      has that type. The groups stay well formed. */
  lemma {:induction false} ExpandLoopGroups(save: Saving, docs: seq<Document>, files: map<Path, File>,
                                           links: Links, t: string)
    requires ExpandLoop(save, docs, files, links).2.Pass?
    ensures var g := ExpandLoop(save, docs, files, links).1;
            && g.Get(t) == links.Get(t) + LinksOfType(docs, t)
            && (t in g.byType <==> t in links.byType || exists j :: 0 <= j < |docs| && TypeOf(docs[j]) == Some(t))
            && (links.Valid() ==> g.Valid())
  {
    if |docs| > 0 {
      var rest := docs[1..];
      var d := docs[0];
      ExpandLoopStep(save, docs, files, links);
      var w := save(d).value;
      var u := d.attrs["TYPE"];
      var link := HtmlLink(d.attrs).value;
      var next := Append(links, u, link);
      ExpandLoopGroups(save, rest, files[w.0 := w.1], next, t);
      assert LinksOfType(docs, t) == (if u == t then [link] else []) + LinksOfType(rest, t);
      if t == u {
        assert next.Get(t) + LinksOfType(rest, t) == links.Get(t) + LinksOfType(docs, t);
      }
      HasTypeCons(docs, t);
    }
  }

  /** Some document has type `t` exactly when the first one does or one of
      the rest does. */
  lemma HasTypeCons(docs: seq<Document>, t: string)
    requires |docs| > 0
    ensures (exists j :: 0 <= j < |docs| && TypeOf(docs[j]) == Some(t)) <==>
              TypeOf(docs[0]) == Some(t) || exists j :: 0 <= j < |docs[1..]| && TypeOf(docs[1..][j]) == Some(t)
  {
    var rest := docs[1..];
    if exists j :: 0 <= j < |rest| && TypeOf(rest[j]) == Some(t) {
      var j :| 0 <= j < |rest| && TypeOf(rest[j]) == Some(t);
      assert docs[j + 1] == rest[j];
    }
    if exists j :: 0 <= j < |docs| && TypeOf(docs[j]) == Some(t) {
      var j :| 0 <= j < |docs| && TypeOf(docs[j]) == Some(t);
      if j > 0 {
        assert rest[j - 1] == docs[j];
      }
    }
  }

  /** `expand(target)`, up to the rendering of `index.html`: it returns the
      link groups the template receives. */
  method Expand(fs: FileSystem, archive: Archive10K, decode: string -> Option<Bytes>, target: Path)
    returns (links: Links, r: Outcome<Error>)
    modifies fs
    ensures fs.dirs == old(fs.dirs) + {target}
    ensures (fs.files, links, r) == ExpandLoop(Saver(Legacy, decode, target), archive.documents, old(fs.files), NoLinks)
  {
    fs.MakeDir(target);
    var docs := archive.documents;
    ghost var save := Saver(Legacy, decode, target);
    links := NoLinks;
    var i := 0;
    while i < |docs|
      invariant 0 <= i <= |docs|
      invariant fs.dirs == old(fs.dirs) + {target}
      invariant ExpandLoop(save, docs[i..], fs.files, links) == ExpandLoop(save, docs, old(fs.files), NoLinks)
    {
      var d := docs[i];
      assert docs[i..][0] == d && docs[i..][1..] == docs[i + 1..];
      r := Save(fs, Legacy, decode, target, d);
      if r.Fail? {
        return;
      }
      if "TYPE" !in d.attrs {
        r := Fail(MissingKey("TYPE"));
        return;
      }
      SavedDocumentHasLink(decode, target, d);
      links := Append(links, d.attrs["TYPE"], HtmlLink(d.attrs).value);
      i := i + 1;
    }
    r := Pass;
  }

  /** One document of a complete loop: it is saved, has a type and a link,
      and the loop goes on with the rest. */
  lemma ExpandLoopStep(save: Saving, docs: seq<Document>, files: map<Path, File>, links: Links)
    requires |docs| > 0 && ExpandLoop(save, docs, files, links).2.Pass?
    ensures save(docs[0]).Ok? && "TYPE" in docs[0].attrs && HtmlLink(docs[0].attrs).Ok?
    ensures var w := save(docs[0]).value;
            ExpandLoop(save, docs, files, links)
              == ExpandLoop(save, docs[1..], files[w.0 := w.1],
                            Append(links, docs[0].attrs["TYPE"], HtmlLink(docs[0].attrs).value))
  {
  }

  /** What a complete expansion of an archive produces: every document is
      saved, each type's list holds the links of that type's documents in
      document order, and the types listed are exactly the documents' types. */
  lemma ExpandGroupsByType(archive: Archive10K, decode: string -> Option<Bytes>, target: Path,
                           files: map<Path, File>, t: string)
    requires ExpandLoop(Saver(Legacy, decode, target), archive.documents, files, NoLinks).2.Pass?
    ensures var (result, g, _) := ExpandLoop(Saver(Legacy, decode, target), archive.documents, files, NoLinks);
            && g.Valid()
            && g.Get(t) == LinksOfType(archive.documents, t)
            && (t in g.byType <==> exists j :: 0 <= j < |archive.documents| && TypeOf(archive.documents[j]) == Some(t))
            && result == files + Archive.Writes(Saver(Legacy, decode, target), archive.documents)
  {
    var save := Saver(Legacy, decode, target);
    ExpandLoopGroups(save, archive.documents, files, NoLinks, t);
    ExpandLoopPasses(save, archive.documents, files, NoLinks);
    Archive.SaveAllOverlays(save, archive.documents, files);
  }
}
