/** The matching rules of both extractor variants, written as scanners over
    the filing text. Each scanner is paired with a declarative description
    of the match the regular expression is defined to find, and a lemma
    proving the scanner finds exactly that match. */
module Patterns {
  import opened Results
  import opened Strings

  /** Which extractor the rule belongs to: the current package module
      (thingy/processors/extract.py) or the older top-level script (extract.py). */
  datatype Variant = Current | Legacy

  // The tag literals, in the folded (lower-case) form IGNORECASE compares against.
  const DocumentOpen: string := "<document>"
  const DocumentClose: string := "</document>"
  const TextOpen: string := "<text>"
  const TextClose: string := "</text>"
  const HeaderOpen: string := "<sec-header>"
  const HeaderClose: string := "</sec-header>"

  /** A match of `<open>(.*)</close>`: the whole match is `start..end`, the
      captured group `innerStart..innerEnd`. */
  datatype Region = Region(start: nat, innerStart: nat, innerEnd: nat, end: nat)

  /** `open` matches at `o`, `close` matches at `c`, and `close` starts no
      earlier than the end of `open`: one way `<open>(.*)</close>` can match. */
  predicate IsRegion(s: string, open: string, close: string, o: nat, c: nat)
  {
    MatchesAt(s, o, open) && MatchesAt(s, c, close) && o + |open| <= c
  }

  /** `re.search` of `<open>(.*)</close>` with IGNORECASE and DOTALL: the
      leftmost opening tag, then the greedy group up to the last closing tag. */
  function SearchRegion(s: string, open: string, close: string): (r: Option<Region>)
    ensures r.Some? ==> IsRegion(s, open, close, r.value.start, r.value.innerEnd)
    ensures r.Some? ==> r.value.innerStart == r.value.start + |open|
                        && r.value.end == r.value.innerEnd + |close| <= |s|
  {
    var o :- Find(s, open, 0);
    var c :- FindLast(s, close, o + |open|);
    Some(Region(o, o + |open|, c, c + |close|))
  }

  /** The search finds a match exactly when one exists, and it is the one
      the regex semantics pick: leftmost start, then the longest group. */
  lemma SearchRegionIsLeftmostGreedy(s: string, open: string, close: string)
    ensures SearchRegion(s, open, close).None? ==>
              forall o: nat, c: nat :: !IsRegion(s, open, close, o, c)
    ensures SearchRegion(s, open, close).Some? ==>
              var r := SearchRegion(s, open, close).value;
              forall o: nat, c: nat :: IsRegion(s, open, close, o, c) ==>
                r.start <= o && (o == r.start ==> c <= r.innerEnd)
  {
    forall o: nat, c: nat | IsRegion(s, open, close, o, c)
      ensures SearchRegion(s, open, close).Some?
      ensures var r := SearchRegion(s, open, close).value;
              r.start <= o && (o == r.start ==> c <= r.innerEnd)
    {
      FindIsLeftmost(s, open, 0, o);
      var first := Find(s, open, 0).value;
      FindLastIsRightmost(s, close, first + |open|, c);
    }
  }

  /** `REGEXPS.TEXT` / `TEXT_RE`. */
  function TextRegion(s: string): Option<Region>
  {
    SearchRegion(s, TextOpen, TextClose)
  }

  /** `REGEXPS.HEADER` / `HEADER_RE`. */
  function HeaderRegion(s: string): Option<Region>
  {
    SearchRegion(s, HeaderOpen, HeaderClose)
  }

  /** A match of `<document>(.*?<text>.+?</text>.*?)</document>`, recorded by
      the positions of its four tags. */
  datatype DocumentMatch = DocumentMatch(start: nat, textAt: nat, textCloseAt: nat, closeAt: nat)
  {
    /** The captured group: everything between the two document tags. */
    function Fragment(s: string): string
      requires closeAt <= |s| && start + |DocumentOpen| <= closeAt
    {
      s[start + |DocumentOpen|..closeAt]
    }
  }

  /** The four tags appear in order, the text section holds at least one
      character (`.+?`), and nothing else constrains the gaps (`.*?`). */
  predicate IsDocumentMatch(s: string, m: DocumentMatch)
  {
    && MatchesAt(s, m.start, DocumentOpen)
    && MatchesAt(s, m.textAt, TextOpen)
    && MatchesAt(s, m.textCloseAt, TextClose)
    && MatchesAt(s, m.closeAt, DocumentClose)
    && m.start + |DocumentOpen| <= m.textAt
    && m.textAt + |TextOpen| + 1 <= m.textCloseAt
    && m.textCloseAt + |TextClose| <= m.closeAt
  }

  /** One step of `findall` for the lazy document pattern, from position
      `pos`: the first `<document>`, then the first `<text>` after it, the
      first `</text>` at least one character later, and the first
      `</document>` after that. */
  function NextDocument(s: string, pos: nat): (r: Option<DocumentMatch>)
    ensures r.Some? ==> IsDocumentMatch(s, r.value) && pos <= r.value.start
    ensures r.Some? ==> r.value.start + |DocumentOpen| <= r.value.closeAt
                        && r.value.closeAt + |DocumentClose| <= |s|
  {
    match Find(s, DocumentOpen, pos)
    case None => None
    case Some(i) => DocumentFrom(s, i)
  }

  /** The rest of a match whose `<document>` tag is at `i`. */
  function DocumentFrom(s: string, i: nat): (r: Option<DocumentMatch>)
    ensures r.Some? ==> && r.value.start == i
                        && MatchesAt(s, r.value.textAt, TextOpen)
                        && MatchesAt(s, r.value.textCloseAt, TextClose)
                        && MatchesAt(s, r.value.closeAt, DocumentClose)
                        && i + |DocumentOpen| <= r.value.textAt
                        && r.value.textAt + |TextOpen| + 1 <= r.value.textCloseAt
                        && r.value.textCloseAt + |TextClose| <= r.value.closeAt
  {
    match Find(s, TextOpen, i + |DocumentOpen|)
    case None => None
    case Some(t) => DocumentTextFrom(s, i, t)
  }

  /** The rest of a match whose `<text>` tag is at `t`. */
  function DocumentTextFrom(s: string, i: nat, t: nat): (r: Option<DocumentMatch>)
    ensures r.Some? ==> && r.value.start == i && r.value.textAt == t
                        && MatchesAt(s, r.value.textCloseAt, TextClose)
                        && MatchesAt(s, r.value.closeAt, DocumentClose)
                        && t + |TextOpen| + 1 <= r.value.textCloseAt
                        && r.value.textCloseAt + |TextClose| <= r.value.closeAt
  {
    match Find(s, TextClose, t + |TextOpen| + 1)
    case None => None
    case Some(e) => DocumentCloseFrom(s, i, t, e)
  }

  /** The rest of a match whose `</text>` tag is at `e`. */
  function DocumentCloseFrom(s: string, i: nat, t: nat, e: nat): (r: Option<DocumentMatch>)
    ensures r.Some? ==> && r.value.start == i && r.value.textAt == t && r.value.textCloseAt == e
                        && MatchesAt(s, r.value.closeAt, DocumentClose)
                        && e + |TextClose| <= r.value.closeAt
  {
    match Find(s, DocumentClose, e + |TextClose|)
    case None => None
    case Some(d) => Some(DocumentMatch(i, t, e, d))
  }

  /** The step finds a match exactly when one starts at or after `pos`; it
      starts leftmost and, the quantifiers being lazy, ends no later than
      any other match that starts at or after `pos`. */
  lemma NextDocumentIsLeftmostShortest(s: string, pos: nat)
    ensures NextDocument(s, pos).None? ==>
              forall m :: IsDocumentMatch(s, m) ==> m.start < pos
    ensures NextDocument(s, pos).Some? ==>
              var r := NextDocument(s, pos).value;
              forall m :: IsDocumentMatch(s, m) && pos <= m.start ==>
                r.start <= m.start && r.closeAt <= m.closeAt
  {
    forall m | IsDocumentMatch(s, m) && pos <= m.start
      ensures NextDocument(s, pos).Some?
      ensures var r := NextDocument(s, pos).value;
              r.start <= m.start && r.closeAt <= m.closeAt
    {
      NextDocumentBefore(s, pos, m);
    }
  }

  lemma NextDocumentBefore(s: string, pos: nat, m: DocumentMatch)
    requires IsDocumentMatch(s, m) && pos <= m.start
    ensures NextDocument(s, pos).Some?
    ensures NextDocument(s, pos).value.start <= m.start && NextDocument(s, pos).value.closeAt <= m.closeAt
  {
    FindIsLeftmost(s, DocumentOpen, pos, m.start);
    var i := Find(s, DocumentOpen, pos).value;
    DocumentFromBefore(s, i, m);
  }

  lemma DocumentFromBefore(s: string, i: nat, m: DocumentMatch)
    requires IsDocumentMatch(s, m) && i <= m.start
    ensures DocumentFrom(s, i).Some? && DocumentFrom(s, i).value.closeAt <= m.closeAt
  {
    FindIsLeftmost(s, TextOpen, i + |DocumentOpen|, m.textAt);
    var t := Find(s, TextOpen, i + |DocumentOpen|).value;
    DocumentTextFromBefore(s, i, t, m);
  }

  lemma DocumentTextFromBefore(s: string, i: nat, t: nat, m: DocumentMatch)
    requires IsDocumentMatch(s, m) && t <= m.textAt
    ensures DocumentTextFrom(s, i, t).Some? && DocumentTextFrom(s, i, t).value.closeAt <= m.closeAt
  {
    FindIsLeftmost(s, TextClose, t + |TextOpen| + 1, m.textCloseAt);
    var e := Find(s, TextClose, t + |TextOpen| + 1).value;
    DocumentCloseFromBefore(s, i, t, e, m);
  }

  lemma DocumentCloseFromBefore(s: string, i: nat, t: nat, e: nat, m: DocumentMatch)
    requires IsDocumentMatch(s, m) && e <= m.textCloseAt
    ensures DocumentCloseFrom(s, i, t, e).Some? && DocumentCloseFrom(s, i, t, e).value.closeAt <= m.closeAt
  {
    FindIsLeftmost(s, DocumentClose, e + |TextClose|, m.closeAt);
  }

  /** A search step: from a position, the next match, if any. */
  type Step = nat -> Option<DocumentMatch>

  /** The step `DOCUMENT.findall` repeats on `s`. */
  function DocumentStep(s: string): Step
  {
    (p: nat) => NextDocument(s, p)
  }

  /** A step finds matches that start at or after the position searched
      from and end inside a text of length `n`. */
  ghost predicate Advances(step: Step, n: nat)
  {
    forall p: nat :: step(p).Some? ==>
      p <= step(p).value.start && step(p).value.start + |DocumentOpen| <= step(p).value.closeAt
      && step(p).value.closeAt + |DocumentClose| <= n
  }

  /** `findall` as repeated search: the scan resumes where the previous
      match ended. */
  function Collect(step: Step, n: nat, pos: nat): (ms: seq<DocumentMatch>)
    requires Advances(step, n)
    decreases n - pos
    ensures forall i :: 0 <= i < |ms| ==>
              pos <= ms[i].start && ms[i].start + |DocumentOpen| <= ms[i].closeAt
              && ms[i].closeAt + |DocumentClose| <= n
  {
    match step(pos)
    case None => []
    case Some(m) => [m] + Collect(step, n, m.closeAt + |DocumentClose|)
  }

  /** `DOCUMENT.findall` from `pos`: successive non-overlapping matches. */
  function DocumentMatches(s: string, pos: nat): (ms: seq<DocumentMatch>)
    ensures |ms| > 0 <==> NextDocument(s, pos).Some?
    ensures forall i :: 0 <= i < |ms| ==>
              pos <= ms[i].start && ms[i].start + |DocumentOpen| <= ms[i].closeAt
              && ms[i].closeAt + |DocumentClose| <= |s|
  {
    Collect(DocumentStep(s), |s|, pos)
  }

  /** Matches of the document pattern at or after `pos`, each inside the
      text and each starting after the previous one ends. */
  predicate InOrder(s: string, pos: nat, ms: seq<DocumentMatch>)
  {
    && (forall i :: 0 <= i < |ms| ==> IsDocumentMatch(s, ms[i]) && pos <= ms[i].start)
    && (forall i :: 0 <= i < |ms| - 1 ==> ms[i].closeAt + |DocumentClose| <= ms[i + 1].start)
  }

  lemma InOrderCons(s: string, pos: nat, m: DocumentMatch, rest: seq<DocumentMatch>)
    requires IsDocumentMatch(s, m) && pos <= m.start
    requires InOrder(s, m.closeAt + |DocumentClose|, rest)
    ensures InOrder(s, pos, [m] + rest)
  {
    var ms := [m] + rest;
    forall i | 0 < i < |ms|
      ensures IsDocumentMatch(s, ms[i]) && pos <= ms[i].start
    {
      assert ms[i] == rest[i - 1];
    }
    forall i | 0 <= i < |ms| - 1
      ensures ms[i].closeAt + |DocumentClose| <= ms[i + 1].start
    {
      assert ms[i + 1] == rest[i];
      if i > 0 {
        assert ms[i] == rest[i - 1];
      }
    }
  }

  /** Repeating a step that finds only matches of the document pattern
      collects matches in order and without overlap. */
  lemma {:induction false} CollectInOrder(s: string, step: Step, pos: nat)
    requires Advances(step, |s|)
    requires forall p: nat :: step(p).Some? ==> IsDocumentMatch(s, step(p).value)
    decreases |s| - pos
    ensures InOrder(s, pos, Collect(step, |s|, pos))
  {
    match step(pos)
    case None =>
    case Some(m) =>
      var next := m.closeAt + |DocumentClose|;
      var rest := Collect(step, |s|, next);
      assert Collect(step, |s|, pos) == [m] + rest;
      CollectInOrder(s, step, next);
      InOrderCons(s, pos, m, rest);
  }

  /** What `findall` reports are matches of the document pattern, in order
      and without overlap. */
  lemma DocumentMatchesAreMatches(s: string, pos: nat)
    ensures InOrder(s, pos, DocumentMatches(s, pos))
  {
    CollectInOrder(s, DocumentStep(s), pos);
  }

  /** `findall` skips no match: every match of the document pattern at or
      after `pos` starts inside some reported match, at or after its
      `<document>` tag and before its `</document>` tag ends. */
  lemma DocumentMatchesComplete(s: string, pos: nat, m: DocumentMatch)
    requires IsDocumentMatch(s, m) && pos <= m.start
    ensures var ms := DocumentMatches(s, pos);
            exists i :: 0 <= i < |ms| && ms[i].start <= m.start < ms[i].closeAt + |DocumentClose|
  {
    var ms := DocumentMatches(s, pos);
    assert ms == Collect(DocumentStep(s), |s|, pos);
    DocumentStepReaches(s, m);
    CollectCovers(DocumentStep(s), |s|, pos, m.start);
  }

  /** From every position up to a match, the step finds a match that starts
      no later than it. */
  lemma DocumentStepReaches(s: string, m: DocumentMatch)
    requires IsDocumentMatch(s, m)
    ensures forall p: nat :: p <= m.start ==>
              DocumentStep(s)(p).Some? && DocumentStep(s)(p).value.start <= m.start
  {
    forall p: nat | p <= m.start
      ensures DocumentStep(s)(p).Some? && DocumentStep(s)(p).value.start <= m.start
    {
      NextDocumentBefore(s, p, m);
    }
  }

  /** Repeating a step that, from every position up to `q`, finds a match
      starting no later than `q` reports a match that covers `q`. */
  lemma {:induction false} CollectCovers(step: Step, n: nat, pos: nat, q: nat)
    requires Advances(step, n) && pos <= q
    requires forall p: nat :: p <= q ==> step(p).Some? && step(p).value.start <= q
    decreases n - pos
    ensures var ms := Collect(step, n, pos);
            exists i :: 0 <= i < |ms| && ms[i].start <= q < ms[i].closeAt + |DocumentClose|
  {
    var r := step(pos).value;
    var next := r.closeAt + |DocumentClose|;
    var rest := Collect(step, n, next);
    var ms := Collect(step, n, pos);
    CollectUnfold(step, n, pos);
    if q < next {
      assert ms[0] == r;
    } else {
      CollectCovers(step, n, next, q);
      var j :| 0 <= j < |rest| && rest[j].start <= q < rest[j].closeAt + |DocumentClose|;
      assert ms[j + 1] == rest[j];
    }
  }

  /** One step of the repeated search: the first match, then the matches
      after it. */
  lemma CollectUnfold(step: Step, n: nat, pos: nat)
    requires Advances(step, n) && step(pos).Some?
    ensures Collect(step, n, pos) == [step(pos).value] + Collect(step, n, step(pos).value.closeAt + |DocumentClose|)
  {
  }

  /** The captured groups of `DOCUMENT.findall(s)`, in order of appearance. */
  function Fragments(s: string): (r: seq<string>)
    ensures |r| == |DocumentMatches(s, 0)|
    ensures forall i :: 0 <= i < |r| ==> r[i] == DocumentMatches(s, 0)[i].Fragment(s)
  {
    var ms := DocumentMatches(s, 0);
    seq(|ms|, i requires 0 <= i < |ms| => ms[i].Fragment(s))
  }

  /** Every captured document fragment holds a text section with a non-empty
      payload: the document pattern already demands `<text>.+?</text>`, and
      the payload search takes the first `<text>` and the last `</text>`. */
  lemma FragmentHasPayload(s: string, m: DocumentMatch)
    requires IsDocumentMatch(s, m)
    ensures TextRegion(m.Fragment(s)).Some?
    ensures TextRegion(m.Fragment(s)).value.innerStart < TextRegion(m.Fragment(s)).value.innerEnd
  {
    var a, b := m.start + |DocumentOpen|, m.closeAt;
    var t', e' := m.textAt - a, m.textCloseAt - a;
    MatchesInSlice(s, a, b, t', TextOpen);
    MatchesInSlice(s, a, b, e', TextClose);
    RegionAround(m.Fragment(s), t', e');
  }

  /** A `<text>` at `t` and a `</text>` at `e`, at least one character
      after it, make the text pattern match with a non-empty group. */
  lemma RegionAround(f: string, t: nat, e: nat)
    requires MatchesAt(f, t, TextOpen) && MatchesAt(f, e, TextClose) && t + |TextOpen| < e
    ensures TextRegion(f).Some? && TextRegion(f).value.innerStart < TextRegion(f).value.innerEnd
  {
    FindIsLeftmost(f, TextOpen, 0, t);
    var o := Find(f, TextOpen, 0).value;
    FindLastIsRightmost(f, TextClose, o + |TextOpen|, e);
  }

  /** Every fragment of a filing holds a non-empty payload. */
  lemma FragmentsHavePayload(s: string)
    ensures forall f :: f in Fragments(s) ==>
              TextRegion(f).Some? && TextRegion(f).value.innerStart < TextRegion(f).value.innerEnd
  {
    var ms := DocumentMatches(s, 0);
    DocumentMatchesAreMatches(s, 0);
    forall f | f in Fragments(s)
      ensures TextRegion(f).Some? && TextRegion(f).value.innerStart < TextRegion(f).value.innerEnd
    {
      var i :| 0 <= i < |Fragments(s)| && Fragments(s)[i] == f;
      FragmentHasPayload(s, ms[i]);
    }
  }

  // ---- attribute lines -------------------------------------------------

  /** `REGEXPS.ATTRS` on one line, `^<(.+?)>(.+)$`: the key is the shortest
      non-empty run after `<` that is followed by `>` and then by at least one
      more character; the value is the rest of the line. */
  function CurrentAttrLine(line: string): Option<(string, string)>
  {
    if |line| > 0 && line[0] == '<' then
      match IndexOf(line, '>', 2)
      case None => None
      case Some(j) => if j + 1 < |line| then Some((line[1..j], line[j + 1..])) else None
    else None
  }

  /** `ATTRS_RE` of the older script on one line, `^<(\w+)>(.+)$`: the key is
      the run of word characters after `<`, and `>` must follow it directly. */
  function LegacyAttrLine(line: string): Option<(string, string)>
  {
    if |line| > 0 && line[0] == '<' then
      var n := LeadingRun(line[1..], IsWordChar);
      if n > 0 && n + 2 < |line| && line[n + 1] == '>' then Some((line[1..n + 1], line[n + 2..]))
      else None
    else None
  }

  function AttrLine(v: Variant, line: string): Option<(string, string)>
  {
    match v
    case Current => CurrentAttrLine(line)
    case Legacy => LegacyAttrLine(line)
  }

  /** The lines each variant's pattern accepts, by their shape: `<`, a
      non-empty key, `>`, a non-empty value. The current key may not hold
      `>` after its first character (the lazy `.+?` stops at the first usable
      `>`); the legacy key consists of word characters. */
  predicate IsAttrShape(v: Variant, key: string, value: string)
  {
    && |key| > 0 && |value| > 0
    && match v
       case Current => '>' !in key[1..]
       case Legacy => forall k :: 0 <= k < |key| ==> IsWordChar(key[k])
  }

  /** Round trip: an attribute line written as `<key>value` is read back as
      `(key, value)` exactly when it has the accepted shape, and the pattern
      accepts no line of any other form. */
  lemma AttrLineRoundTrip(v: Variant, key: string, value: string)
    requires '\n' !in value
    ensures IsAttrShape(v, key, value) ==> AttrLine(v, "<" + key + ">" + value) == Some((key, value))
  {
    if IsAttrShape(v, key, value) {
      match v
      case Current => CurrentRoundTrip(key, value);
      case Legacy => LegacyRoundTrip(key, value);
    }
  }

  lemma CurrentRoundTrip(key: string, value: string)
    requires IsAttrShape(Current, key, value)
    ensures CurrentAttrLine("<" + key + ">" + value) == Some((key, value))
  {
    var line := "<" + key + ">" + value;
    assert line[1..|key| + 1] == key && line[|key| + 2..] == value;
    assert line[|key| + 1] == '>';
    forall i | 2 <= i < |key| + 1
      ensures line[i] != '>'
    {
      assert line[i] == key[1..][i - 2];
    }
    assert IndexOf(line, '>', 2) == Some(|key| + 1);
  }

  lemma LegacyRoundTrip(key: string, value: string)
    requires IsAttrShape(Legacy, key, value)
    ensures LegacyAttrLine("<" + key + ">" + value) == Some((key, value))
  {
    var line := "<" + key + ">" + value;
    assert line[1..|key| + 1] == key && line[|key| + 2..] == value;
    var rest := line[1..];
    assert rest[..|key|] == key && rest[|key|] == '>';
    forall k | 0 <= k < |key|
      ensures IsWordChar(rest[k])
    {
      assert rest[k] == key[k];
    }
    LeadingRunAt(rest, IsWordChar, |key|);
  }

  lemma AttrLineShape(v: Variant, line: string)
    ensures AttrLine(v, line).Some? ==>
              var (key, value) := AttrLine(v, line).value;
              IsAttrShape(v, key, value) && line == "<" + key + ">" + value
  {
    if AttrLine(v, line).Some? {
      match v
      case Current => CurrentShape(line);
      case Legacy => LegacyShape(line);
    }
  }

  lemma CurrentShape(line: string)
    requires CurrentAttrLine(line).Some?
    ensures var (key, value) := CurrentAttrLine(line).value;
            IsAttrShape(Current, key, value) && line == "<" + key + ">" + value
  {
    var (key, value) := CurrentAttrLine(line).value;
    var j := IndexOf(line, '>', 2).value;
    assert key == line[1..j] && value == line[j + 1..];
    forall i | 0 <= i < |key| - 1
      ensures key[1..][i] != '>'
    {
      assert key[1..][i] == line[i + 2];
    }
    assert line == [line[0]] + line[1..j] + [line[j]] + line[j + 1..];
  }

  lemma LegacyShape(line: string)
    requires LegacyAttrLine(line).Some?
    ensures var (key, value) := LegacyAttrLine(line).value;
            IsAttrShape(Legacy, key, value) && line == "<" + key + ">" + value
  {
    var (key, value) := LegacyAttrLine(line).value;
    var n := LeadingRun(line[1..], IsWordChar);
    assert key == line[1..][..n];
    assert line == [line[0]] + line[1..n + 1] + [line[n + 1]] + line[n + 2..];
  }

  // ---- uuencoded payloads ----------------------------------------------

  predicate AllSpace(s: string)
  {
    forall k :: 0 <= k < |s| ==> IsSpace(s[k])
  }

  predicate AllDigits(s: string)
  {
    forall k :: 0 <= k < |s| ==> IsDigit(s[k])
  }

  /** The shape an `IS_UUENCODED` pattern asks for after the leading blanks:
      `begin`, a space or not, the mode digits, then a space or not. */
  datatype UuTest = UuTest(spaceAfterBegin: bool, spaceAfterMode: bool)

  /** The pattern each variant compiles. The current module compiles
      `^\s*begin \d+.*end\s*$` with VERBOSE, which drops the unescaped
      space, so what it matches is `^\s*begin\d+.*end\s*$`; the older
      script compiles `^\s*begin \d+ .*end\s*$` without VERBOSE. */
  function TestOf(v: Variant): UuTest
  {
    match v
    case Current => UuTest(false, false)
    case Legacy => UuTest(true, true)
  }

  /** `^\s*begin \d+.*end\s*$` read literally, as the pattern's own comment
      (`begin` and then a mode) describes it. */
  const IntendedTest: UuTest := UuTest(true, false)

  function Prefix(t: UuTest): string
  {
    if t.spaceAfterBegin then "begin " else "begin"
  }

  /** `n >= 1` digits start at `b`. */
  predicate DigitsAt(s: string, b: nat, n: nat)
  {
    n >= 1 && b + n <= |s| && AllDigits(s[b..b + n])
  }

  /** `end` starts at `p`, and only blanks follow it. */
  predicate EndAt(s: string, p: nat)
  {
    p + 3 <= |s| && s[p..p + 3] == "end" && AllSpace(s[p + 3..])
  }

  /** One way the pattern `t` can match `s` from its start: `a` leading
      blanks, the `begin` prefix, `n` digits (and possibly one space), any
      body, `end` at `p`, and only blanks after it. */
  predicate UuWitness(t: UuTest, s: string, a: nat, n: nat, p: nat)
  {
    var b := a + |Prefix(t)|;
    && b <= |s|
    && AllSpace(s[..a])
    && s[a..b] == Prefix(t)
    && DigitsAt(s, b, n)
    && (t.spaceAfterMode ==> b + n < |s| && s[b + n] == ' ')
    && b + n + (if t.spaceAfterMode then 1 else 0) <= p
    && EndAt(s, p)
  }

  /** After the prefix ending at `b`: a digit, then `end` closing at `z`. */
  predicate DigitThenEnd(s: string, b: nat, z: nat)
  {
    b < |s| && IsDigit(s[b]) && b + 4 <= z <= |s| && s[z - 3..z] == "end"
  }

  /** After the prefix ending at `b`: the run of digits, a space, then `end`
      closing at `z`. */
  predicate ModeThenEnd(s: string, b: nat, z: nat)
  {
    && b <= |s|
    && var n := LeadingRun(s[b..], IsDigit);
       n >= 1 && b + n < |s| && s[b + n] == ' ' && b + n + 4 <= z <= |s| && s[z - 3..z] == "end"
  }

  /** `match` of the pattern `t`, DOTALL and case-sensitive, decided by
      scanning. The leading blanks are the whole leading run, since `b` is
      no blank; `end` must close the last non-blank characters. */
  predicate Uuencoded(t: UuTest, s: string)
  {
    UuencodedFrom(t, s, LeadingRun(s, IsSpace), TrailingStart(s, IsSpace))
  }

  /** The checks after the blanks: the prefix at `a`, and the rest of the
      pattern up to `z`, where the trailing blanks start. */
  predicate UuencodedFrom(t: UuTest, s: string, a: nat, z: nat)
  {
    var b := a + |Prefix(t)|;
    && b <= |s| && s[a..b] == Prefix(t)
    && if t.spaceAfterMode then ModeThenEnd(s, b, z) else DigitThenEnd(s, b, z)
  }

  /** `REGEXPS.IS_UUENCODED.match(text)` of the given variant. */
  predicate IsUuencoded(v: Variant, s: string)
  {
    Uuencoded(TestOf(v), s)
  }

  /** The scan accepts a payload exactly when the pattern can match it. */
  lemma UuencodedIff(t: UuTest, s: string)
    ensures Uuencoded(t, s) <==> exists a: nat, n: nat, p: nat :: UuWitness(t, s, a, n, p)
  {
    if Uuencoded(t, s) {
      UuencodedHasWitness(t, s);
    }
    if exists a: nat, n: nat, p: nat :: UuWitness(t, s, a, n, p) {
      var a: nat, n: nat, p: nat :| UuWitness(t, s, a, n, p);
      WitnessIsUuencoded(t, s, a, n, p);
    }
  }

  lemma UuencodedHasWitness(t: UuTest, s: string)
    requires Uuencoded(t, s)
    ensures exists a: nat, n: nat, p: nat :: UuWitness(t, s, a, n, p)
  {
    var a, z := LeadingRun(s, IsSpace), TrailingStart(s, IsSpace);
    var n := UuencodedWitness(t, s);
    assert UuWitness(t, s, a, n, z - 3);
  }

  /** The witness a detected payload gives: the leading run, the digits
      after the prefix, and the `end` closing the last non-blank characters. */
  lemma UuencodedWitness(t: UuTest, s: string) returns (n: nat)
    requires Uuencoded(t, s)
    ensures UuWitness(t, s, LeadingRun(s, IsSpace), n, TrailingStart(s, IsSpace) - 3)
  {
    var a, z := LeadingRun(s, IsSpace), TrailingStart(s, IsSpace);
    assert UuencodedFrom(t, s, a, z);
    LeadingBlanks(s);
    TrailingBlanks(s);
    n := FromWitness(t, s, a, z);
  }

  lemma FromWitness(t: UuTest, s: string, a: nat, z: nat) returns (n: nat)
    requires UuencodedFrom(t, s, a, z) && z <= |s|
    requires AllSpace(s[..a]) && AllSpace(s[z..])
    ensures UuWitness(t, s, a, n, z - 3)
  {
    if t.spaceAfterMode {
      n := ModeWitness(t, s, a, z);
    } else {
      n := 1;
      DigitWitness(t, s, a, z);
    }
  }

  lemma DigitWitness(t: UuTest, s: string, a: nat, z: nat)
    requires !t.spaceAfterMode && a + |Prefix(t)| <= |s| && z <= |s|
    requires AllSpace(s[..a]) && AllSpace(s[z..]) && s[a..a + |Prefix(t)|] == Prefix(t)
    requires DigitThenEnd(s, a + |Prefix(t)|, z)
    ensures UuWitness(t, s, a, 1, z - 3)
  {
    var b := a + |Prefix(t)|;
    EndAtTrailing(s, z);
    assert AllDigits(s[b..b + 1]) by {
      assert s[b..b + 1][0] == s[b];
    }
  }

  lemma ModeWitness(t: UuTest, s: string, a: nat, z: nat) returns (n: nat)
    requires t.spaceAfterMode && a + |Prefix(t)| <= |s| && z <= |s|
    requires AllSpace(s[..a]) && AllSpace(s[z..]) && s[a..a + |Prefix(t)|] == Prefix(t)
    requires ModeThenEnd(s, a + |Prefix(t)|, z)
    ensures UuWitness(t, s, a, n, z - 3)
  {
    var b := a + |Prefix(t)|;
    n := LeadingRun(s[b..], IsDigit);
    EndAtTrailing(s, z);
    ModeDigits(s, b, z);
  }

  lemma EndAtTrailing(s: string, z: nat)
    requires 3 <= z <= |s| && s[z - 3..z] == "end" && AllSpace(s[z..])
    ensures EndAt(s, z - 3)
  {
    assert s[z - 3..z - 3 + 3] == "end";
  }

  lemma ModeDigits(s: string, b: nat, z: nat)
    requires ModeThenEnd(s, b, z)
    ensures DigitsAt(s, b, LeadingRun(s[b..], IsDigit))
  {
    var n := LeadingRun(s[b..], IsDigit);
    var u, r := s[b..b + n], s[b..];
    forall k | 0 <= k < n
      ensures IsDigit(u[k])
    {
      assert u[k] == r[k];
    }
  }

  lemma LeadingBlanks(s: string)
    ensures AllSpace(s[..LeadingRun(s, IsSpace)])
  {
    var a := LeadingRun(s, IsSpace);
    forall k | 0 <= k < a
      ensures IsSpace(s[..a][k])
    {
      assert s[..a][k] == s[k];
    }
  }

  lemma TrailingBlanks(s: string)
    ensures AllSpace(s[TrailingStart(s, IsSpace)..])
  {
    var z := TrailingStart(s, IsSpace);
    forall k | 0 <= k < |s| - z
      ensures IsSpace(s[z..][k])
    {
      assert s[z..][k] == s[z + k];
    }
  }

  lemma WitnessIsUuencoded(t: UuTest, s: string, a: nat, n: nat, p: nat)
    requires UuWitness(t, s, a, n, p)
    ensures Uuencoded(t, s)
  {
    var b := a + |Prefix(t)|;
    WitnessLeading(t, s, a);
    WitnessTrailing(s, p);
    WitnessDigits(s, b, n);
    if t.spaceAfterMode {
      WitnessMode(s, b, n, p);
    } else {
      assert DigitThenEnd(s, b, p + 3);
    }
    assert UuencodedFrom(t, s, a, p + 3);
  }

  lemma WitnessMode(s: string, b: nat, n: nat, p: nat)
    requires b + n < |s| && s[b + n] == ' ' && b + n + 1 <= p && p + 3 <= |s| && s[p..p + 3] == "end"
    requires LeadingRun(s[b..], IsDigit) == n && n >= 1
    ensures ModeThenEnd(s, b, p + 3)
  {
    assert s[p + 3 - 3..p + 3] == "end";
  }

  /** The blanks before `begin` are the whole leading run. */
  lemma WitnessLeading(t: UuTest, s: string, a: nat)
    requires a + |Prefix(t)| <= |s| && AllSpace(s[..a]) && s[a..a + |Prefix(t)|] == Prefix(t)
    ensures LeadingRun(s, IsSpace) == a
  {
    assert s[a] == s[a..a + |Prefix(t)|][0];
    forall k | 0 <= k < a
      ensures IsSpace(s[k])
    {
      assert s[..a][k] == s[k];
    }
    LeadingRunAt(s, IsSpace, a);
  }

  /** The blanks after `end` are the whole trailing run. */
  lemma WitnessTrailing(s: string, p: nat)
    requires EndAt(s, p)
    ensures TrailingStart(s, IsSpace) == p + 3
    ensures s[p + 3 - 3..p + 3] == "end"
  {
    assert s[p + 2] == s[p..p + 3][2];
    forall k | p + 3 <= k < |s|
      ensures IsSpace(s[k])
    {
      assert s[p + 3..][k - (p + 3)] == s[k];
    }
    TrailingStartAt(s, IsSpace, p + 3);
  }

  /** The mode digits start at `b`, and a space after them ends the run of
      digits. */
  lemma WitnessDigits(s: string, b: nat, n: nat)
    requires DigitsAt(s, b, n)
    ensures IsDigit(s[b])
    ensures b + n < |s| && s[b + n] == ' ' ==> LeadingRun(s[b..], IsDigit) == n
  {
    var u, r := s[b..b + n], s[b..];
    assert u[0] == s[b];
    forall k | 0 <= k < n
      ensures IsDigit(r[k])
    {
      assert r[k] == u[k];
    }
    if b + n < |s| {
      assert r[n] == s[b + n];
      if s[b + n] == ' ' {
        LeadingRunAt(r, IsDigit, n);
      }
    }
  }

  /** The two variants' uuencode tests never both accept a payload: after
      `begin` the current pattern needs a digit where the older one needs a
      space. */
  lemma UuencodedVariantsDisjoint(s: string)
    ensures !(IsUuencoded(Current, s) && IsUuencoded(Legacy, s))
  {
    PrefixesDisjoint(s, LeadingRun(s, IsSpace), TrailingStart(s, IsSpace));
  }

  lemma PrefixesDisjoint(s: string, a: nat, z: nat)
    ensures !(UuencodedFrom(TestOf(Current), s, a, z) && UuencodedFrom(TestOf(Legacy), s, a, z))
  {
    if UuencodedFrom(TestOf(Current), s, a, z) {
      assert IsDigit(s[a + 5]);
      assert s[a..a + 6][5] == s[a + 5];
    }
  }

  /** A payload with a conventional `begin 644 name` header line, which the
      current pattern as compiled does not detect. */
  const ModeLinePayload: string := "begin 644 a\nM\nend\n"

  lemma CurrentMissesModeLine()
    ensures !IsUuencoded(Current, ModeLinePayload)
  {
    var s := ModeLinePayload;
    WitnessLeading(UuTest(true, true), s, 0);
    assert s[5] == ' ';
  }

  /** The pattern as its comment reads it accepts that payload. */
  lemma IntendedAcceptsModeLine()
    ensures Uuencoded(IntendedTest, ModeLinePayload)
  {
    var s := ModeLinePayload;
    assert AllDigits(s[6..9]) by {
      assert s[6..9] == "644";
    }
    assert s[14..17] == "end";
    assert AllSpace(s[17..]) by {
      assert s[17..] == "\n";
    }
    assert s[0..6] == "begin ";
    WitnessIsUuencoded(IntendedTest, s, 0, 3, 14);
  }

  /** Every payload the older script detects, the pattern as its comment
      reads it detects too. */
  lemma LegacyUuencodedIsIntended(s: string)
    requires IsUuencoded(Legacy, s)
    ensures Uuencoded(IntendedTest, s)
  {
    var t := TestOf(Legacy);
    var n := UuencodedWitness(t, s);
    var a, p := LeadingRun(s, IsSpace), TrailingStart(s, IsSpace) - 3;
    WitnessKeepsIntended(s, a, n, p);
    WitnessIsUuencoded(IntendedTest, s, a, n, p);
  }

  /** A match of the older pattern is a match of the intended one: the
      space after the mode is part of the body. */
  lemma WitnessKeepsIntended(s: string, a: nat, n: nat, p: nat)
    requires UuWitness(TestOf(Legacy), s, a, n, p)
    ensures UuWitness(IntendedTest, s, a, n, p)
  {
  }
}
