/** One `<document>` of a filing, as both extractor variants build it
    (`_EDGAR_Document` in thingy/processors/extract.py and `EDGAR_Document` in
    extract.py): its attribute map, its payload, the name it is saved under,
    and how it is saved. A document is never changed after it is built, so it
    is a value and building it is a function that either yields the document
    or names the error the constructor raises. */
module Documents {
  import opened Results
  import opened Strings
  import opened Patterns
  import opened FileStore

  /** The exceptions the extractor lets escape. */
  datatype Error =
    | MissingAttributes       // RuntimeError('Unable to find attrs')
    | MissingText             // RuntimeError('Unable to find text')
    | MissingHeader           // RuntimeError('Unable to find header')
    | MissingDocuments        // RuntimeError('Unable to find documents')
    | HeaderParseError        // yaml.error.YAMLError, re-raised
    | MissingKey(key: string) // KeyError from an attribute lookup
    | DecodeError             // the uu codec rejecting a payload

  type Attrs = map<string, string>

  datatype Document = Document(attrs: Attrs, text: string)

  // ---- attributes --------------------------------------------------------

  /** `ATTRS.findall` over the lines of `content`, in order: one
      `(key, value)` pair per line the pattern accepts. */
  function AttrPairs(v: Variant, lines: seq<string>): (r: seq<(string, string)>)
    ensures |r| <= |lines|
    ensures forall i :: 0 <= i < |r| ==> IsAttrShape(v, r[i].0, r[i].1)
  {
    if |lines| == 0 then []
    else
      var rest := AttrPairs(v, lines[1..]);
      AttrLineShape(v, lines[0]);
      match AttrLine(v, lines[0])
      case None => rest
      case Some(p) => [p] + rest
  }

  /** The pairs are exactly what the pattern reads from the accepted lines. */
  lemma {:induction false} AttrPairsMembers(v: Variant, lines: seq<string>)
    ensures forall p :: p in AttrPairs(v, lines) <==> exists i :: 0 <= i < |lines| && AttrLine(v, lines[i]) == Some(p)
  {
    if |lines| > 0 {
      var tail := lines[1..];
      AttrPairsMembers(v, tail);
      forall p
        ensures p in AttrPairs(v, lines) <==> exists i :: 0 <= i < |lines| && AttrLine(v, lines[i]) == Some(p)
      {
        if exists i :: 0 <= i < |lines| && AttrLine(v, lines[i]) == Some(p) {
          var i :| 0 <= i < |lines| && AttrLine(v, lines[i]) == Some(p);
          if i > 0 {
            assert AttrLine(v, tail[i - 1]) == Some(p);
          }
        }
        if p in AttrPairs(v, tail) {
          var i :| 0 <= i < |tail| && AttrLine(v, tail[i]) == Some(p);
          assert lines[i + 1] == tail[i];
        }
      }
    }
  }

  /** The dict comprehension `{key.upper(): value for key, value in pairs}`:
      later pairs overwrite earlier ones with the same upper-cased key. */
  function AttrMap(pairs: seq<(string, string)>): (m: Attrs)
    ensures m.Keys == set i | 0 <= i < |pairs| :: Upper(pairs[i].0)
  {
    if |pairs| == 0 then map[]
    else
      var last := pairs[|pairs| - 1];
      var m := AttrMap(pairs[..|pairs| - 1]);
      assert forall i :: 0 <= i < |pairs| - 1 ==> pairs[..|pairs| - 1][i] == pairs[i];
      m[Upper(last.0) := last.1]
  }

  /** Every stored value is the value of some pair with that key. */
  lemma {:induction false} AttrMapValues(pairs: seq<(string, string)>, k: string)
    requires k in AttrMap(pairs)
    ensures exists i :: 0 <= i < |pairs| && Upper(pairs[i].0) == k && AttrMap(pairs)[k] == pairs[i].1
  {
    var last := pairs[|pairs| - 1];
    var init := pairs[..|pairs| - 1];
    if Upper(last.0) != k {
      AttrMapValues(init, k);
      var i :| 0 <= i < |init| && Upper(init[i].0) == k && AttrMap(init)[k] == init[i].1;
      assert init[i] == pairs[i];
    }
  }

  /** A later duplicate key wins: the value stored under a key is the one of
      the last pair that has that key. */
  lemma {:induction false} AttrMapLastWins(pairs: seq<(string, string)>, i: nat)
    requires i < |pairs|
    requires forall j :: i < j < |pairs| ==> Upper(pairs[j].0) != Upper(pairs[i].0)
    ensures AttrMap(pairs)[Upper(pairs[i].0)] == pairs[i].1
  {
    if i < |pairs| - 1 {
      var init := pairs[..|pairs| - 1];
      assert init[i] == pairs[i];
      forall j | i < j < |init|
        ensures Upper(init[j].0) != Upper(init[i].0)
      {
        assert init[j] == pairs[j];
      }
      AttrMapLastWins(init, i);
    }
  }

  /** The pairs of one line: its own pair when the pattern accepts it. */
  lemma AttrPairsOne(v: Variant, line: string)
    ensures AttrPairs(v, [line]) == if AttrLine(v, line).Some? then [AttrLine(v, line).value] else []
  {
    assert [line][1..] == [];
  }

  /** The scan goes line by line in order: the pairs of two blocks of lines
      are the pairs of the first followed by those of the second. */
  lemma {:induction false} AttrPairsConcat(v: Variant, a: seq<string>, b: seq<string>)
    ensures AttrPairs(v, a + b) == AttrPairs(v, a) + AttrPairs(v, b)
  {
    if |a| > 0 {
      assert (a + b)[0] == a[0];
      assert (a + b)[1..] == a[1..] + b;
      AttrPairsConcat(v, a[1..], b);
      var rest, tail := AttrPairs(v, a[1..]), AttrPairs(v, b);
      assert AttrPairs(v, a[1..] + b) == rest + tail;
      match AttrLine(v, a[0])
      case None =>
      case Some(p) =>
        assert AttrPairs(v, a + b) == [p] + (rest + tail);
        assert [p] + (rest + tail) == ([p] + rest) + tail;
    } else {
      assert a + b == b;
    }
  }

  /** Later lines override earlier ones: the value stored under a key is the
      one of the last accepted line whose key upper-cases to it. */
  lemma AttrLinesLastWins(v: Variant, lines: seq<string>, i: nat, k: string, x: string)
    requires i < |lines| && AttrLine(v, lines[i]) == Some((k, x))
    requires forall j :: i < j < |lines| && AttrLine(v, lines[j]).Some? ==>
               Upper(AttrLine(v, lines[j]).value.0) != Upper(k)
    ensures Upper(k) in AttrMap(AttrPairs(v, lines))
    ensures AttrMap(AttrPairs(v, lines))[Upper(k)] == x
  {
    var pre, post := lines[..i], lines[i + 1..];
    AttrPairsAround(v, lines, i, k, x);
    forall m | 0 <= m < |post| && AttrLine(v, post[m]).Some?
      ensures Upper(AttrLine(v, post[m]).value.0) != Upper(k)
    {
      assert post[m] == lines[i + 1 + m];
    }
    LaterKeysDiffer(v, post, k);
    PairsLastWins(AttrPairs(v, pre), (k, x), AttrPairs(v, post));
  }

  /** The pairs of the lines around an accepted line `i`. */
  lemma AttrPairsAround(v: Variant, lines: seq<string>, i: nat, k: string, x: string)
    requires i < |lines| && AttrLine(v, lines[i]) == Some((k, x))
    ensures AttrPairs(v, lines) == AttrPairs(v, lines[..i]) + [(k, x)] + AttrPairs(v, lines[i + 1..])
  {
    var pre, post := lines[..i], lines[i + 1..];
    assert lines == pre + ([lines[i]] + post);
    AttrPairsConcat(v, pre, [lines[i]] + post);
    AttrPairsConcat(v, [lines[i]], post);
    AttrPairsOne(v, lines[i]);
  }

  /** When no accepted line has a key upper-casing to `Upper(k)`, no pair does. */
  lemma LaterKeysDiffer(v: Variant, lines: seq<string>, k: string)
    requires forall m :: 0 <= m < |lines| && AttrLine(v, lines[m]).Some? ==>
               Upper(AttrLine(v, lines[m]).value.0) != Upper(k)
    ensures forall p :: p in AttrPairs(v, lines) ==> Upper(p.0) != Upper(k)
  {
    AttrPairsMembers(v, lines);
  }

  /** A pair followed only by pairs with other keys keeps its value. */
  lemma PairsLastWins(before: seq<(string, string)>, p: (string, string), after: seq<(string, string)>)
    requires forall q :: q in after ==> Upper(q.0) != Upper(p.0)
    ensures Upper(p.0) in AttrMap(before + [p] + after)
    ensures AttrMap(before + [p] + after)[Upper(p.0)] == p.1
  {
    var pairs := before + [p] + after;
    var n := |before|;
    assert pairs[n] == p;
    forall j | n < j < |pairs|
      ensures Upper(pairs[j].0) != Upper(pairs[n].0)
    {
      assert pairs[j] == after[j - n - 1];
    }
    AttrMapLastWins(pairs, n);
  }

  /** The attribute map of a document whose pattern scan sees `content`. */
  function Attributes(v: Variant, content: string): Attrs
  {
    AttrMap(AttrPairs(v, Split(content, '\n')))
  }

  /** The dict comprehension on a document: if line `i` of the scanned text
      is read as `(k, x)` and no later accepted line has a key with the same
      upper-case form, then `attrs[k.upper()]` is `x`. */
  lemma AttributesLastWins(v: Variant, content: string, i: nat, k: string, x: string)
    requires i < |Split(content, '\n')| && AttrLine(v, Split(content, '\n')[i]) == Some((k, x))
    requires forall j :: i < j < |Split(content, '\n')| && AttrLine(v, Split(content, '\n')[j]).Some? ==>
               Upper(AttrLine(v, Split(content, '\n')[j]).value.0) != Upper(k)
    ensures Upper(k) in Attributes(v, content) && Attributes(v, content)[Upper(k)] == x
  {
    AttrLinesLastWins(v, Split(content, '\n'), i, k, x);
  }

  /** Every stored key is non-empty and upper-case, every stored value is
      non-empty (the `if value` filter never drops a pair, since the value
      group needs a character), and an older-script key is all word characters. */
  lemma AttributesWellFormed(v: Variant, content: string)
    ensures forall k :: k in Attributes(v, content) ==>
              |k| > 0 && Upper(k) == k && |Attributes(v, content)[k]| > 0
              && (v.Legacy? ==> forall c :: c in k ==> IsWordChar(c))
  {
    var pairs := AttrPairs(v, Split(content, '\n'));
    forall k | k in Attributes(v, content)
      ensures |k| > 0 && Upper(k) == k && |Attributes(v, content)[k]| > 0
      ensures v.Legacy? ==> forall c :: c in k ==> IsWordChar(c)
    {
      AttrMapValues(pairs, k);
      var i :| 0 <= i < |pairs| && Upper(pairs[i].0) == k && Attributes(v, content)[k] == pairs[i].1;
      UpperIdempotent(pairs[i].0);
      if v.Legacy? {
        forall c | c in k
          ensures IsWordChar(c)
        {
          var j :| 0 <= j < |k| && k[j] == c;
          var key := pairs[i].0;
          assert IsWordChar(key[j]);
        }
      }
    }
  }

  /** The attribute keys are exactly the upper-cased keys of the lines the
      pattern accepts. */
  lemma AttributeKeys(v: Variant, content: string, k: string)
    ensures k in Attributes(v, content) <==>
              exists line :: line in Split(content, '\n') && AttrLine(v, line).Some? && Upper(AttrLine(v, line).value.0) == k
  {
    LinesKeys(v, Split(content, '\n'), k);
  }

  lemma LinesKeys(v: Variant, lines: seq<string>, k: string)
    ensures k in AttrMap(AttrPairs(v, lines)) <==>
              exists line :: line in lines && AttrLine(v, line).Some? && Upper(AttrLine(v, line).value.0) == k
  {
    if k in AttrMap(AttrPairs(v, lines)) {
      var j := KeyHasLine(v, lines, k);
      assert lines[j] in lines;
    }
    if exists line :: line in lines && AttrLine(v, line).Some? && Upper(AttrLine(v, line).value.0) == k {
      var line :| line in lines && AttrLine(v, line).Some? && Upper(AttrLine(v, line).value.0) == k;
      var j :| 0 <= j < |lines| && lines[j] == line;
      LineHasKey(v, lines, j);
    }
  }

  lemma KeyHasLine(v: Variant, lines: seq<string>, k: string) returns (j: nat)
    requires k in AttrMap(AttrPairs(v, lines))
    ensures j < |lines| && AttrLine(v, lines[j]).Some? && Upper(AttrLine(v, lines[j]).value.0) == k
  {
    var pairs := AttrPairs(v, lines);
    var i :| 0 <= i < |pairs| && Upper(pairs[i].0) == k;
    AttrPairsMembers(v, lines);
    assert pairs[i] in pairs;
    j :| 0 <= j < |lines| && AttrLine(v, lines[j]) == Some(pairs[i]);
  }

  lemma LineHasKey(v: Variant, lines: seq<string>, j: nat)
    requires j < |lines| && AttrLine(v, lines[j]).Some?
    ensures Upper(AttrLine(v, lines[j]).value.0) in AttrMap(AttrPairs(v, lines))
  {
    var pairs := AttrPairs(v, lines);
    var p := AttrLine(v, lines[j]).value;
    AttrPairsMembers(v, lines);
    assert p in pairs;
    var i :| 0 <= i < |pairs| && pairs[i] == p;
    assert Upper(pairs[i].0) in AttrMap(pairs).Keys;
  }

  /** A line of the form `<key>value` that stands on a line of its own in
      the scanned text (the first line, the last, or one between two line
      breaks) yields the attribute `key.upper()`. */
  lemma LineBecomesAttribute(v: Variant, before: string, line: string, after: string)
    requires '\n' !in line && AttrLine(v, line).Some?
    requires |before| == 0 || before[|before| - 1] == '\n'
    requires |after| == 0 || after[0] == '\n'
    ensures Upper(AttrLine(v, line).value.0) in Attributes(v, before + line + after)
  {
    var s := before + line + after;
    LineInSplit(before, line, after);
    AttributeKeys(v, s, Upper(AttrLine(v, line).value.0));
  }

  /** A line between the start or a line break and the end or a line break
      is one of the parts `split` gives. */
  lemma LineInSplit(before: string, line: string, after: string)
    requires '\n' !in line
    requires |before| == 0 || before[|before| - 1] == '\n'
    requires |after| == 0 || after[0] == '\n'
    ensures line in Split(before + line + after, '\n')
  {
    FirstPart(line, after);
    if |before| > 0 {
      PartAfterBreak(before, line, after);
    } else {
      PartAtStart(before, line, after);
    }
  }

  lemma PartAtStart(before: string, line: string, after: string)
    requires |before| == 0
    ensures Split(line + after, '\n')[0] in Split(before + line + after, '\n')
  {
    assert before + line + after == line + after;
  }

  lemma PartAfterBreak(before: string, line: string, after: string)
    requires |before| > 0 && before[|before| - 1] == '\n'
    ensures Split(line + after, '\n')[0] in Split(before + line + after, '\n')
  {
    var b := before[..|before| - 1];
    assert before == b + ['\n'];
    assert before + line + after == b + ['\n'] + (line + after);
    PartAfter(b, line + after);
  }

  /** The first part after a line break is one of the parts. */
  lemma PartAfter(b: string, rest: string)
    ensures Split(rest, '\n')[0] in Split(b + ['\n'] + rest, '\n')
  {
    SplitConcat(b, '\n', rest);
    var left := Split(b, '\n');
    assert Split(b + ['\n'] + rest, '\n')[|left|] == Split(rest, '\n')[0];
  }

  /** A line followed by nothing or by a line break is the first part. */
  lemma FirstPart(line: string, after: string)
    requires '\n' !in line
    requires |after| == 0 || after[0] == '\n'
    ensures Split(line + after, '\n')[0] == line
  {
    if |after| == 0 {
      assert line + after == line;
      SplitNoSep(line, '\n');
    } else {
      assert line + after == line + ['\n'] + after[1..];
      SplitConcat(line, '\n', after[1..]);
      SplitNoSep(line, '\n');
    }
  }

  // ---- building a document ----------------------------------------------

  /** `result.groups()[0]` of the `TEXT` search, or `''` when it finds nothing. */
  function Payload(content: string): (text: string)
    ensures TextRegion(content).Some? ==>
              var r := TextRegion(content).value;
              text == content[r.innerStart..r.innerEnd]
    ensures TextRegion(content).None? ==> text == ""
  {
    match TextRegion(content)
    case None => ""
    case Some(r) => content[r.innerStart..r.innerEnd]
  }

  /** The payload is the group of the match the `TEXT` pattern is defined to
      find: among all ways `<text>(.*)</text>` can match, the one that starts
      leftmost and, from there, extends furthest; it is empty when the
      pattern cannot match at all. */
  lemma PayloadIsLeftmostGreedy(content: string)
    ensures (forall o: nat, c: nat :: !IsRegion(content, TextOpen, TextClose, o, c)) ==> Payload(content) == ""
    ensures (exists o: nat, c: nat :: IsRegion(content, TextOpen, TextClose, o, c)) ==>
              exists o: nat, c: nat ::
                && IsRegion(content, TextOpen, TextClose, o, c)
                && Payload(content) == content[o + |TextOpen|..c]
                && forall o': nat, c': nat :: IsRegion(content, TextOpen, TextClose, o', c') ==>
                     o <= o' && (o' == o ==> c' <= c)
  {
    SearchRegionIsLeftmostGreedy(content, TextOpen, TextClose);
    if TextRegion(content).Some? {
      var r := TextRegion(content).value;
      assert IsRegion(content, TextOpen, TextClose, r.start, r.innerEnd);
    }
  }

  /** The text the attribute pattern scans. The current variant first cuts
      the whole `<text>…</text>` match out of the fragment; the older script
      scans the fragment as it is. */
  function AttrSource(v: Variant, content: string): string
  {
    match v
    case Legacy => content
    case Current =>
      match TextRegion(content)
      case None => content
      case Some(r) => content[..r.start] + content[r.end..]
  }

  /** The constructor: attributes are checked before the payload. */
  function ParseDocument(v: Variant, content: string): (r: Result<Document, Error>)
    ensures r.Ok? ==> |r.value.attrs| > 0 && |r.value.text| > 0
    ensures r.Ok? ==> r.value == Document(Attributes(v, AttrSource(v, content)), Payload(content))
    ensures r.Ok? <==> |Attributes(v, AttrSource(v, content))| > 0 && |Payload(content)| > 0
    ensures r.Err? ==> r.error == (if |Attributes(v, AttrSource(v, content))| == 0 then MissingAttributes
                                   else MissingText)
  {
    var attrs := Attributes(v, AttrSource(v, content));
    var text := Payload(content);
    if |attrs| == 0 then Err(MissingAttributes)
    else if |text| == 0 then Err(MissingText)
    else Ok(Document(attrs, text))
  }

  /** A built document has the shape its constructor promises. */
  lemma ParsedDocumentWellFormed(v: Variant, content: string)
    requires ParseDocument(v, content).Ok?
    ensures var d := ParseDocument(v, content).value;
            && TextRegion(content).Some?
            && d.text == content[TextRegion(content).value.innerStart..TextRegion(content).value.innerEnd]
            && forall k :: k in d.attrs ==>
                 |k| > 0 && Upper(k) == k && |d.attrs[k]| > 0
                 && (v.Legacy? ==> forall c :: c in k ==> IsWordChar(c))
  {
    AttributesWellFormed(v, AttrSource(v, content));
  }

  /** A tag that begins with `<` and holds no other `<` cannot overlap an
      occurrence of itself, so when it occurs at `o` and not within `s[..o]`,
      `o` is its leftmost occurrence. */
  lemma FirstTagAt(s: string, o: nat, tag: string, before: string)
    requires |tag| > 0 && tag[0] == '<' && '<' !in tag[1..]
    requires MatchesAt(s, o, tag)
    requires s[..o] == before && forall j :: !MatchesAt(before, j, tag)
    ensures Find(s, tag, 0) == Some(o)
  {
    forall j | 0 <= j < o
      ensures !MatchesAt(s, j, tag)
    {
      if j + |tag| <= o {
        MatchesInSlice(s, 0, o, j, tag);
        assert s[0..o] == before;
      } else {
        TagsDoNotOverlap(s, j, o, tag);
      }
    }
    FindIsLeftmost(s, tag, 0, o);
  }

  /** Likewise, an occurrence at `c` with none in the text `after` it is the
      rightmost one. */
  lemma LastTagAt(s: string, c: nat, lo: nat, tag: string, after: string)
    requires |tag| > 0 && tag[0] == '<' && '<' !in tag[1..]
    requires lo <= c && MatchesAt(s, c, tag)
    requires s[c + |tag|..] == after && forall j :: !MatchesAt(after, j, tag)
    ensures FindLast(s, tag, lo) == Some(c)
  {
    forall j | c < j
      ensures !MatchesAt(s, j, tag)
    {
      if c + |tag| <= j {
        MatchesInSlice(s, c + |tag|, |s|, j - (c + |tag|), tag);
        assert s[c + |tag|..|s|] == after;
      } else {
        TagsDoNotOverlap(s, c, j, tag);
      }
    }
    FindLastIsRightmost(s, tag, lo, c);
  }

  /** A second occurrence cannot start inside the first. */
  lemma TagsDoNotOverlap(s: string, i: nat, j: nat, tag: string)
    requires |tag| > 0 && tag[0] == '<' && '<' !in tag[1..]
    requires i < j < i + |tag|
    ensures !(MatchesAt(s, i, tag) && MatchesAt(s, j, tag))
  {
    MatchesAtChar(s, i, tag, j - i);
    MatchesAtChar(s, j, tag, 0);
    assert tag[1..][j - i - 1] == tag[j - i];
  }

  /** In the current variant the payload is cut out before attributes are
      scanned: for a fragment `pre <text> body </text> post`, with no `<text>`
      in `pre` and no `</text>` in `post`, the payload is `body` and the
      attributes are those of `pre + post` alone, whatever `body` holds. */
  lemma PayloadIsCutOut(pre: string, body: string, post: string)
    requires forall j :: !MatchesAt(pre, j, TextOpen)
    requires forall j :: !MatchesAt(post, j, TextClose)
    ensures var s := pre + TextOpen + body + TextClose + post;
            Payload(s) == body && AttrSource(Current, s) == pre + post
  {
    var s := pre + TextOpen + body + TextClose + post;
    var o, c := |pre|, |pre| + |TextOpen| + |body|;
    var e := c + |TextClose|;
    CutOutRegion(pre, body, post);
    CutOutSlices(pre, body, post);
  }

  lemma CutOutSlices(pre: string, body: string, post: string)
    ensures var s := pre + TextOpen + body + TextClose + post;
            var o, c := |pre|, |pre| + |TextOpen| + |body|;
            s[o + |TextOpen|..c] == body && s[..o] + s[c + |TextClose|..] == pre + post
  {
    var s := pre + TextOpen + body + TextClose + post;
    var o, c := |pre|, |pre| + |TextOpen| + |body|;
    assert s[o + |TextOpen|..c] == body;
    assert s[..o] == pre && s[c + |TextClose|..] == post;
  }

  /** The text pattern matches exactly the `<text>…</text>` written between
      `pre` and `post`. */
  lemma CutOutRegion(pre: string, body: string, post: string)
    requires forall j :: !MatchesAt(pre, j, TextOpen)
    requires forall j :: !MatchesAt(post, j, TextClose)
    ensures var o, c := |pre|, |pre| + |TextOpen| + |body|;
            TextRegion(pre + TextOpen + body + TextClose + post)
              == Some(Region(o, o + |TextOpen|, c, c + |TextClose|))
  {
    var s := pre + TextOpen + body + TextClose + post;
    var o, c := |pre|, |pre| + |TextOpen| + |body|;
    var e := c + |TextClose|;
    assert s[o..o + |TextOpen|] == TextOpen && s[..o] == pre;
    assert s[c..e] == TextClose && s[e..] == post;
    FirstTagAt(s, o, TextOpen, pre);
    LastTagAt(s, c, o + |TextOpen|, TextClose, post);
    TextRegionAt(s, o, c);
  }

  /** The text region is fixed by its first opening and last closing tag. */
  lemma TextRegionAt(s: string, o: nat, c: nat)
    requires Find(s, TextOpen, 0) == Some(o) && FindLast(s, TextClose, o + |TextOpen|) == Some(c)
    ensures TextRegion(s) == Some(Region(o, o + |TextOpen|, c, c + |TextClose|))
  {
  }

  /** Consequently the current variant's attributes do not depend on the
      payload, while the older script picks up a `<TAG>value` line inside it. */
  lemma PayloadLinesAndVariants(pre: string, body: string, post: string, line: string)
    requires forall j :: !MatchesAt(pre, j, TextOpen)
    requires forall j :: !MatchesAt(post, j, TextClose)
    ensures Attributes(Current, AttrSource(Current, pre + TextOpen + body + TextClose + post))
            == Attributes(Current, pre + post)
    ensures '\n' !in line && LegacyAttrLine(line).Some? ==>
              var s := pre + TextOpen + "\n" + line + "\n" + post;
              Upper(LegacyAttrLine(line).value.0) in Attributes(Legacy, AttrSource(Legacy, s + TextClose))
  {
    PayloadIsCutOut(pre, body, post);
    if '\n' !in line && LegacyAttrLine(line).Some? {
      var s := pre + TextOpen + "\n" + line + "\n" + post + TextClose;
      var before, after := pre + TextOpen + "\n", "\n" + post + TextClose;
      assert s == before + line + after;
      assert before[|before| - 1] == '\n' && after[0] == '\n';
      LineBecomesAttribute(Legacy, before, line, after);
    }
  }

  // ---- find_all ----------------------------------------------------------

  /** How one fragment is turned into a document, or the error raised. */
  type Parsing = string -> Result<Document, Error>

  /** The document constructor of variant `v`, as a function of the fragment. */
  function Parser(v: Variant): Parsing
  {
    f => ParseDocument(v, f)
  }

  /** The list comprehension of `find_all`: the first fragment whose
      constructor raises decides the error. */
  function ParseAll(parse: Parsing, fragments: seq<string>): (r: Result<seq<Document>, Error>)
    ensures r.Ok? ==> |r.value| == |fragments|
  {
    if |fragments| == 0 then Ok([])
    else
      match parse(fragments[0])
      case Err(e) => Err(e)
      case Ok(d) =>
        match ParseAll(parse, fragments[1..])
        case Err(e) => Err(e)
        case Ok(ds) => Ok([d] + ds)
  }

  /** A successful list holds, in order, the document each fragment builds. */
  lemma {:induction false} ParseAllOk(parse: Parsing, fragments: seq<string>)
    requires ParseAll(parse, fragments).Ok?
    ensures forall i :: 0 <= i < |fragments| ==> parse(fragments[i]) == Ok(ParseAll(parse, fragments).value[i])
  {
    if |fragments| > 0 {
      var tail := fragments[1..];
      ParseAllOk(parse, tail);
      var ds := ParseAll(parse, fragments).value;
      assert ds == [parse(fragments[0]).value] + ParseAll(parse, tail).value;
      forall i | 1 <= i < |fragments|
        ensures parse(fragments[i]) == Ok(ds[i])
      {
        assert fragments[i] == tail[i - 1];
      }
    }
  }

  /** The error of the list is the error of its first failing fragment. */
  lemma {:induction false} ParseAllFirstError(parse: Parsing, fragments: seq<string>)
    requires ParseAll(parse, fragments).Err?
    ensures exists i :: 0 <= i < |fragments| && parse(fragments[i]) == Err(ParseAll(parse, fragments).error)
                        && forall j :: 0 <= j < i ==> parse(fragments[j]).Ok?
  {
    if parse(fragments[0]).Err? {
      assert parse(fragments[0]) == Err(ParseAll(parse, fragments).error);
    } else {
      var tail := fragments[1..];
      ParseAllFirstError(parse, tail);
      var i :| 0 <= i < |tail| && parse(tail[i]) == Err(ParseAll(parse, tail).error)
                && forall j :: 0 <= j < i ==> parse(tail[j]).Ok?;
      assert fragments[i + 1] == tail[i];
      forall j | 0 <= j < i + 1
        ensures parse(fragments[j]).Ok?
      {
        if j > 0 {
          assert fragments[j] == tail[j - 1];
        }
      }
    }
  }

  /** `find_all(string)`: one document per `DOCUMENT` match, in order. */
  function FindAll(v: Variant, s: string): Result<seq<Document>, Error>
  {
    ParseAll(Parser(v), Fragments(s))
  }

  /** A successful `find_all` holds one document per `DOCUMENT` match, in
      order, each the one its captured fragment builds. */
  lemma FindAllDocuments(v: Variant, s: string)
    requires FindAll(v, s).Ok?
    ensures var ms, docs := DocumentMatches(s, 0), FindAll(v, s).value;
            && |docs| == |ms|
            && forall i :: 0 <= i < |ms| ==> ParseDocument(v, ms[i].Fragment(s)) == Ok(docs[i])
  {
    ParseAllOk(Parser(v), Fragments(s));
  }

  /** `Unable to find text` is unreachable through `find_all`: the document
      pattern only matches fragments whose `<text>` section holds at least
      one character, and the payload search spans at least that section.
      The only error `find_all` can raise is therefore `Unable to find attrs`. */
  lemma FindAllNeverMissingText(v: Variant, s: string)
    ensures FindAll(v, s).Err? ==> FindAll(v, s).error == MissingAttributes
  {
    var frags := Fragments(s);
    if FindAll(v, s).Err? {
      ParseAllFirstError(Parser(v), frags);
      var i :| 0 <= i < |frags| && Parser(v)(frags[i]) == Err(FindAll(v, s).error);
      FragmentsHavePayload(s);
      assert frags[i] in frags;
      PayloadPresent(v, frags[i]);
    }
  }

  /** A fragment with a non-empty `<text>` section never fails for lack of text. */
  lemma PayloadPresent(v: Variant, f: string)
    requires TextRegion(f).Some? && TextRegion(f).value.innerStart < TextRegion(f).value.innerEnd
    ensures ParseDocument(v, f) != Err(MissingText)
  {
    assert |Payload(f)| > 0;
  }

  /** An empty document list means the filing holds no document match. */
  lemma FindAllEmpty(v: Variant, s: string)
    requires FindAll(v, s) == Ok([])
    ensures forall m :: !IsDocumentMatch(s, m)
  {
    NextDocumentIsLeftmostShortest(s, 0);
    assert DocumentMatches(s, 0) == [];
  }

  // ---- filename and link -------------------------------------------------

  predicate IsDot(c: char)
  {
    c == '.'
  }

  /** The `filename` property: `FILENAME` as is; else the description with
      dots stripped from both ends, `/` turned into `-`, and `.html` added;
      else `TYPE.SEQUENCE`, looking `TYPE` up first. The name exists exactly
      when one of the three rules applies, and a failure names the key
      looked up last. */
  function Filename(attrs: Attrs): (r: Result<string, Error>)
    ensures r.Ok? <==> "FILENAME" in attrs || "DESCRIPTION" in attrs || ("TYPE" in attrs && "SEQUENCE" in attrs)
    ensures r.Err? ==> r.error == MissingKey(if "TYPE" in attrs then "SEQUENCE" else "TYPE")
    ensures "FILENAME" in attrs ==> r == Ok(attrs["FILENAME"])
    ensures "FILENAME" !in attrs && "DESCRIPTION" in attrs ==>
              r == Ok(DescriptionStem(attrs["DESCRIPTION"]) + ".html")
    ensures "FILENAME" !in attrs && "DESCRIPTION" !in attrs && r.Ok? ==>
              r.value == attrs["TYPE"] + "." + attrs["SEQUENCE"]
  {
    if "FILENAME" in attrs then Ok(attrs["FILENAME"])
    else if "DESCRIPTION" in attrs then Ok(DescriptionStem(attrs["DESCRIPTION"]) + ".html")
    else if "TYPE" !in attrs then Err(MissingKey("TYPE"))
    else if "SEQUENCE" !in attrs then Err(MissingKey("SEQUENCE"))
    else Ok(attrs["TYPE"] + "." + attrs["SEQUENCE"])
  }

  /** The stem a description gives: `.strip(".")` then `.replace("/", "-")`. */
  function DescriptionStem(d: string): string
  {
    Replace(Strip(d, IsDot), '/', '-')
  }

  /** A name made from a description ends in `.html`, holds no `/`, and so
      is a relative name that lands directly inside the target directory;
      what precedes `.html` is the description's stem. */
  lemma DescribedFilename(attrs: Attrs, parent: Path)
    requires "FILENAME" !in attrs && "DESCRIPTION" in attrs
    ensures var name := Filename(attrs).value;
            && |name| >= 5 && name[|name| - 5..] == ".html"
            && name[..|name| - 5] == DescriptionStem(attrs["DESCRIPTION"])
            && '/' !in name
            && (|parent| > 0 ==> JoinPath(parent, name) == parent + "/" + name)
  {
    var stem := DescriptionStem(attrs["DESCRIPTION"]);
    StemEnds(attrs["DESCRIPTION"]);
    HtmlSuffix(stem, Filename(attrs).value, parent);
  }

  /** A `/`-free stem with `.html` added. */
  lemma HtmlSuffix(stem: string, name: string, parent: Path)
    requires name == stem + ".html" && '/' !in stem
    ensures |name| >= 5 && name[|name| - 5..] == ".html" && name[..|name| - 5] == stem
    ensures '/' !in name
    ensures |parent| > 0 ==> JoinPath(parent, name) == parent + "/" + name
  {
    assert name[..|name| - 5] == stem;
    assert name[|name| - 5..] == ".html";
    forall k | 0 <= k < |name|
      ensures name[k] != '/'
    {
      if k < |stem| {
        assert name[k] == stem[k];
      } else {
        assert name[k] == ".html"[k - |stem|];
      }
    }
  }

  /** A stem holds no `/`, neither starts nor ends with `.`, and is the
      description with the runs of dots at both ends removed and `/` replaced. */
  lemma DescriptionStemShape(d: string)
    ensures var stem := DescriptionStem(d);
            && '/' !in stem
            && (|stem| > 0 ==> stem[0] != '.' && stem[|stem| - 1] != '.')
            && exists a: nat, b: nat :: a <= b <= |d| && stem == Replace(d[a..b], '/', '-')
                  && (forall k :: 0 <= k < a ==> d[k] == '.')
                  && (forall k :: b <= k < |d| ==> d[k] == '.')
  {
    StemEnds(d);
    StemSlice(d);
  }

  lemma StemEnds(d: string)
    ensures '/' !in DescriptionStem(d)
    ensures |DescriptionStem(d)| > 0 ==> DescriptionStem(d)[0] != '.' && DescriptionStem(d)[|DescriptionStem(d)| - 1] != '.'
  {
    var t := Strip(d, IsDot);
    assert |t| > 0 ==> !IsDot(t[0]) && !IsDot(t[|t| - 1]);
    ReplacedEnds(t, Replace(t, '/', '-'));
  }

  /** Replacing `/` leaves none behind and keeps a non-dot at either end. */
  lemma ReplacedEnds(t: string, stem: string)
    requires stem == Replace(t, '/', '-')
    requires |t| > 0 ==> t[0] != '.' && t[|t| - 1] != '.'
    ensures '/' !in stem
    ensures |stem| > 0 ==> stem[0] != '.' && stem[|stem| - 1] != '.'
  {
  }

  lemma StemSlice(d: string)
    ensures exists a: nat, b: nat :: a <= b <= |d| && DescriptionStem(d) == Replace(d[a..b], '/', '-')
              && (forall k :: 0 <= k < a ==> d[k] == '.')
              && (forall k :: b <= k < |d| ==> d[k] == '.')
  {
    var t, a := Strip(d, IsDot), LeadingRun(d, IsDot);
    StripDots(d);
    StemWitness(d, t, a, DescriptionStem(d));
  }

  /** What stripping dots leaves: a slice with only dots on either side. */
  lemma StripDots(d: string)
    ensures var t, a := Strip(d, IsDot), LeadingRun(d, IsDot);
            && a + |t| <= |d| && t == d[a..a + |t|]
            && (forall k :: 0 <= k < a ==> d[k] == '.')
            && (forall k :: a + |t| <= k < |d| ==> d[k] == '.')
  {
    var t, a := Strip(d, IsDot), LeadingRun(d, IsDot);
    forall k | 0 <= k < a
      ensures d[k] == '.'
    {
      assert IsDot(d[k]);
    }
    forall k | a + |t| <= k < |d|
      ensures d[k] == '.'
    {
      assert IsDot(d[k]);
    }
  }

  lemma StemWitness(d: string, t: string, a: nat, stem: string)
    requires a + |t| <= |d| && t == d[a..a + |t|]
    requires forall k :: 0 <= k < a ==> d[k] == '.'
    requires forall k :: a + |t| <= k < |d| ==> d[k] == '.'
    requires stem == Replace(t, '/', '-')
    ensures exists a: nat, b: nat :: a <= b <= |d| && stem == Replace(d[a..b], '/', '-')
              && (forall k :: 0 <= k < a ==> d[k] == '.')
              && (forall k :: b <= k < |d| ==> d[k] == '.')
  {
    var b := a + |t|;
    assert stem == Replace(d[a..b], '/', '-');
  }

  /** A description with no `/` and no dot at either end is its own stem. */
  lemma DescriptionStemKeeps(d: string)
    requires '/' !in d && (|d| > 0 ==> d[0] != '.' && d[|d| - 1] != '.')
    ensures DescriptionStem(d) == d
  {
    var t := Strip(d, IsDot);
    var a := LeadingRun(d, IsDot);
    assert a == 0;
    assert |t| == |d|;
  }

  /** `get_html_link`: the description, or the file name when there is none,
      linked to the file name. */
  function HtmlLink(attrs: Attrs): Result<string, Error>
  {
    var f :- Filename(attrs);
    var d := if "DESCRIPTION" in attrs then attrs["DESCRIPTION"] else f;
    Ok("<a href=\"./" + f + "\"><b>" + d + "</b> (" + f + ")</a>")
  }

  /** The file a link points at: the text between `href="./` and the next `"`. */
  function LinkTarget(link: string): Option<string>
  {
    var prefix := "<a href=\"./";
    if |link| >= |prefix| && link[..|prefix|] == prefix then
      var q := IndexOf(link, '"', |prefix|);
      if q.Some? then Some(link[|prefix|..q.value]) else None
    else None
  }

  /** A link can be built exactly when the file name can, and it points at
      that file name (when the name holds no `"`). */
  lemma HtmlLinkTarget(attrs: Attrs)
    ensures HtmlLink(attrs).Ok? <==> Filename(attrs).Ok?
    ensures HtmlLink(attrs).Ok? && '"' !in Filename(attrs).value ==>
              LinkTarget(HtmlLink(attrs).value) == Some(Filename(attrs).value)
  {
    if HtmlLink(attrs).Ok? && '"' !in Filename(attrs).value {
      var f := Filename(attrs).value;
      var d := if "DESCRIPTION" in attrs then attrs["DESCRIPTION"] else f;
      LinkTargetOf(f, d);
    }
  }

  /** The three parts of a link: the target between `<a href="./` and the
      next `"`, then the label and the trailing name as `LinkLabel` reads
      them from the rest. */
  function LinkParts(link: string): Option<(string, string)>
  {
    var f :- LinkTarget(link);
    var o := |"<a href=\"./"| + |f|;
    if o <= |link| then
      var d :- LinkLabel(link[o..], f);
      Some((f, d))
    else None
  }

  /** What follows the target: `"><b>`, the label up to the next `<`, then
      `</b> (`, the target `f` again and `)</a>` to the end. */
  function LinkLabel(rest: string, f: string): Option<string>
  {
    var bold := "\"><b>";
    if |bold| <= |rest| && rest[..|bold|] == bold then
      var q :- IndexOf(rest, '<', |bold|);
      if rest[q..] == "</b> (" + f + ")</a>" then Some(rest[|bold|..q]) else None
    else None
  }

  /** `get_html_link` reads back whole: the target and the trailing name are
      the file name, and the label is the description, or the file name when
      there is none (when neither holds the delimiter that ends it). */
  lemma HtmlLinkParts(attrs: Attrs)
    ensures HtmlLink(attrs).Ok? ==>
              var f := Filename(attrs).value;
              var caption := if "DESCRIPTION" in attrs then attrs["DESCRIPTION"] else f;
              '"' !in f && '<' !in caption ==> LinkParts(HtmlLink(attrs).value) == Some((f, caption))
  {
    if HtmlLink(attrs).Ok? {
      var f := Filename(attrs).value;
      var caption := if "DESCRIPTION" in attrs then attrs["DESCRIPTION"] else f;
      if '"' !in f && '<' !in caption {
        LinkTargetOf(f, caption);
        LinkPartsOf(f, caption);
      }
    }
  }

  /** The parts after the target of a link built from `f` and `d`. */
  lemma LinkPartsOf(f: string, d: string)
    requires '"' !in f && '<' !in d
    requires LinkTarget("<a href=\"./" + f + "\"><b>" + d + "</b> (" + f + ")</a>") == Some(f)
    ensures LinkParts("<a href=\"./" + f + "\"><b>" + d + "</b> (" + f + ")</a>") == Some((f, d))
  {
    var link := "<a href=\"./" + f + "\"><b>" + d + "</b> (" + f + ")</a>";
    var rest := "\"><b>" + d + "</b> (" + f + ")</a>";
    assert link == ("<a href=\"./" + f) + rest;
    assert link[|"<a href=\"./"| + |f|..] == rest;
    LinkLabelOf(f, d);
  }

  /** The label of a link read back from what follows its target. */
  lemma LinkLabelOf(f: string, d: string)
    requires '<' !in d
    ensures LinkLabel("\"><b>" + d + "</b> (" + f + ")</a>", f) == Some(d)
  {
    var rest := "\"><b>" + d + "</b> (" + f + ")</a>";
    assert rest[..5] == "\"><b>";
    assert rest[5 + |d|] == '<';
    forall j | 5 <= j < 5 + |d|
      ensures rest[j] != '<'
    {
      assert rest[j] == d[j - 5];
    }
    assert IndexOf(rest, '<', 5) == Some(5 + |d|);
    assert rest[5..5 + |d|] == d;
    assert rest[5 + |d|..] == "</b> (" + f + ")</a>";
  }

  /** The target of a link built from file name `f` and label `d`. */
  lemma LinkTargetOf(f: string, d: string)
    requires '"' !in f
    ensures LinkTarget("<a href=\"./" + f + "\"><b>" + d + "</b> (" + f + ")</a>") == Some(f)
  {
    var link := "<a href=\"./" + f + "\"><b>" + d + "</b> (" + f + ")</a>";
    var prefix := "<a href=\"./";
    assert link[..|prefix|] == prefix;
    assert link[|prefix| + |f|] == '"';
    forall j | |prefix| <= j < |prefix| + |f|
      ensures link[j] != '"'
    {
      assert link[j] == f[j - |prefix|];
    }
    assert IndexOf(link, '"', |prefix|) == Some(|prefix| + |f|);
    assert link[|prefix|..|prefix| + |f|] == f;
  }

  // ---- save ----------------------------------------------------------------

  /** What `save(parent)` writes, or the error it raises first: the file
      name is worked out before the payload is looked at. A uuencoded payload
      is written decoded in byte mode, any other payload verbatim in text
      mode, and the target is always the document's file name under `parent`. */
  function SaveEffect(v: Variant, decode: string -> Option<Bytes>, parent: Path, doc: Document)
    : (r: Result<(Path, File), Error>)
    ensures r.Ok? ==> Filename(doc.attrs).Ok? && r.value.0 == JoinPath(parent, Filename(doc.attrs).value)
    ensures r.Ok? ==> (r.value.1.BinaryFile? <==> IsUuencoded(v, doc.text))
    ensures r.Ok? && !IsUuencoded(v, doc.text) ==> r.value.1 == TextFile(doc.text)
    ensures r.Ok? && IsUuencoded(v, doc.text) ==> decode(doc.text) == Some(r.value.1.data)
    ensures r == Err(DecodeError) <==> Filename(doc.attrs).Ok? && IsUuencoded(v, doc.text) && decode(doc.text).None?
    ensures r.Err? && r.error != DecodeError ==> Filename(doc.attrs) == Err(r.error)
  {
    var name :- Filename(doc.attrs);
    var target := JoinPath(parent, name);
    if IsUuencoded(v, doc.text) then
      match decode(doc.text)
      case None => Err(DecodeError)
      case Some(data) => Ok((target, BinaryFile(data)))
    else Ok((target, TextFile(doc.text)))
  }

  /** What saving one document does: the path and file it writes, or the
      error it raises. */
  type Saving = Document -> Result<(Path, File), Error>

  /** `doc.save(parent=target)`, as a function of the document. */
  function Saver(v: Variant, decode: string -> Option<Bytes>, target: Path): Saving
  {
    d => SaveEffect(v, decode, target, d)
  }

  /** `save(parent)`. */
  method Save(fs: FileSystem, v: Variant, decode: string -> Option<Bytes>, parent: Path, doc: Document)
    returns (r: Outcome<Error>)
    modifies fs
    ensures fs.dirs == old(fs.dirs)
    ensures match SaveEffect(v, decode, parent, doc)
            case Ok(w) => r == Pass && fs.files == old(fs.files)[w.0 := w.1]
            case Err(e) => r == Fail(e) && fs.files == old(fs.files)
  {
    var name := Filename(doc.attrs);
    if name.Err? {
      return Fail(name.error);
    }
    var target := JoinPath(parent, name.value);
    var content := TextFile(doc.text);
    if IsUuencoded(v, doc.text) {
      var data := decode(doc.text);
      if data.None? {
        return Fail(DecodeError);
      }
      content := BinaryFile(data.value);
    }
    fs.Write(target, content);
    return Pass;
  }
}
