/**
 * The per-element extraction of the match scraper and the loop that writes
 * one output row per complete element.
 *
 * The browser is not modelled: each source page is given as its URL and the
 * list of match elements present once all results were loaded; an element
 * carries the text of each of its three sub-elements, or nothing where the
 * sub-element lookup fails.
 */
module ScrapeMatches {
  import opened Wrappers
  import opened Text
  import opened TimePattern
  import opened Seqs

  // ---------------------------------------------------------------------------
  // Time text
  // ---------------------------------------------------------------------------

  /** `s.replace("\n", " ")`. */
  function ReplaceNewlines(s: string): string
  {
    if s == [] then [] else [if s[0] == '\n' then ' ' else s[0]] + ReplaceNewlines(s[1..])
  }

  /** Every newline becomes a space and every other character stays where it was. */
  lemma {:induction false} ReplaceNewlinesSpec(s: string)
    ensures |ReplaceNewlines(s)| == |s|
    ensures forall i :: 0 <= i < |s| ==> ReplaceNewlines(s)[i] == (if s[i] == '\n' then ' ' else s[i])
  {
    if s != [] {
      ReplaceNewlinesSpec(s[1..]);
    }
  }

  /** The time cell's text with newlines turned into spaces, then stripped. */
  function TimeText(raw: string): (t: string)
    ensures '\n' !in t && Trimmed(t)
  {
    var u := ReplaceNewlines(raw);
    ReplaceNewlinesSpec(raw);
    assert forall i :: 0 <= i < |u| ==> u[i] != '\n';
    StripKeepsOut(u, '\n');
    Strip(u)
  }

  /** The time written out: the first date-time occurrence, or the whole time text when there is none. */
  function MatchTime(raw: string): string
  {
    var t := TimeText(raw);
    match Search(t)
    case Some((a, b)) => t[a..b]
    case None => t
  }

  /**
   * `match_time` is the leftmost occurrence of the date-time expression in the
   * time text (the only one starting there), or the whole time text when the
   * expression does not occur; either way it holds no newline.
   */
  lemma MatchTimeSpec(raw: string)
    ensures '\n' !in MatchTime(raw)
    ensures (forall x :: 0 <= x <= |TimeText(raw)| ==> !MatchStartsAt(TimeText(raw), x))
      ==> MatchTime(raw) == TimeText(raw)
    ensures (exists x :: 0 <= x <= |TimeText(raw)| && MatchStartsAt(TimeText(raw), x)) ==>
      exists a: nat, b: nat :: LeftmostDateTime(TimeText(raw), a, b) && MatchTime(raw) == TimeText(raw)[a..b]
  {
    var t := TimeText(raw);
    SearchSpec(t);
    if Search(t).Some? {
      var (a, b) := Search(t).value;
      assert MatchTime(raw) == t[a..b];
      assert forall i :: 0 <= i < b - a ==> t[a..b][i] == t[a + i];
      assert LeftmostDateTime(t, a, b);
    }
  }

  // ---------------------------------------------------------------------------
  // Participant text
  // ---------------------------------------------------------------------------

  /** Positions where `$` (no MULTILINE) matches: the end, or just before a final newline. */
  predicate EndAnchor(s: string, q: nat)
  {
    q == |s| || (q + 1 == |s| && s[q] == '\n')
  }

  /** The first `k` characters of `t` are whitespace and the rest, at least one, are digits. */
  predicate SpacesThenDigits(t: string, k: nat)
  {
    k < |t| && (forall x :: 0 <= x < k ==> IsSpace(t[x])) && (forall x :: k <= x < |t| ==> IsDigit(t[x]))
  }

  /** `t` is, in full, some whitespace followed by at least one digit: the shape of `\s*\d+`. */
  ghost predicate ScoreShape(t: string)
  {
    exists k: nat :: SpacesThenDigits(t, k)
  }

  /** The one position where a match of `\s*\d+$` can end. */
  function ScoreEnd(s: string): (e: nat)
    ensures e <= |s| && EndAnchor(s, e)
  {
    if |s| > 0 && s[|s| - 1] == '\n' then |s| - 1 else |s|
  }

  /** Start of the leftmost match of `\s*\d+$`: the whitespace run before the trailing digit run. */
  function ScoreStart(s: string): nat
    requires DigitRunStart(s, ScoreEnd(s)) < ScoreEnd(s)
  {
    SpaceRunStart(s, DigitRunStart(s, ScoreEnd(s)))
  }

  /** `re.sub(r"\s*\d+$", "", s)`. */
  function StripScore(s: string): string
  {
    var e := ScoreEnd(s);
    if DigitRunStart(s, e) == e then s else s[..ScoreStart(s)] + s[e..]
  }

  /** The participant name written out: the score removed, then stripped. */
  function CleanParticipant(raw: string): string
  {
    Strip(StripScore(raw))
  }

  /** Any match of `\s*\d+$` ends at `ScoreEnd` and starts no earlier than `ScoreStart`. */
  lemma ScoreMatchBound(s: string, p: nat, q: nat)
    requires p <= q <= |s| && EndAnchor(s, q) && ScoreShape(s[p..q])
    ensures q == ScoreEnd(s) && DigitRunStart(s, q) < q && ScoreStart(s) <= p
  {
    var k: nat :| SpacesThenDigits(s[p..q], k);
    ScoreRunsIn(s, p, q, k);
    assert IsDigit(s[q - 1]);
    DigitRunStartBelow(s, q, p + k);
    var d := DigitRunStart(s, q);
    if d < p + k {
      assert IsDigit(s[p + k - 1]);
    } else {
      SpaceRunStartBelow(s, d, p);
    }
  }

  /** The two runs of a `\s*\d+` match, as positions of the whole text. */
  lemma ScoreRunsIn(s: string, p: nat, q: nat, k: nat)
    requires p <= q <= |s| && SpacesThenDigits(s[p..q], k)
    ensures p + k < q
    ensures forall x :: p <= x < p + k ==> IsSpace(s[x])
    ensures forall x :: p + k <= x < q ==> IsDigit(s[x])
  {
    var t := s[p..q];
    forall x | p <= x < q ensures s[x] == t[x - p] {
    }
  }

  /** When the text ends in digits, `ScoreStart` is where a match of `\s*\d+$` starts. */
  lemma ScoreMatchAtStart(s: string)
    requires DigitRunStart(s, ScoreEnd(s)) < ScoreEnd(s)
    ensures ScoreShape(s[ScoreStart(s)..ScoreEnd(s)])
  {
    var e := ScoreEnd(s);
    var d := DigitRunStart(s, e);
    var w := ScoreStart(s);
    var t := s[w..e];
    assert forall x :: 0 <= x < |t| ==> t[x] == s[w + x];
    assert SpacesThenDigits(t, d - w);
  }

  /**
   * When `\s*\d+$` matches, with `w` the leftmost start of a match that ends
   * at `e`, the cleaned name is the text before `w`, only stripped; the digit
   * group and the whitespace before it are all that is removed.
   */
  lemma CleanParticipantRemovesScore(raw: string, w: nat, e: nat)
    requires w <= e <= |raw| && EndAnchor(raw, e) && ScoreShape(raw[w..e])
    requires forall p :: 0 <= p < w ==> !ScoreShape(raw[p..e])
    ensures CleanParticipant(raw) == Strip(raw[..w])
  {
    ScoreMatchBound(raw, w, e);
    ScoreMatchAtStart(raw);
    assert ScoreStart(raw) == w;
    assert AllSpace(raw[e..]);
    StripAppendSpace(raw[..w], raw[e..]);
  }

  /** When `\s*\d+$` matches nowhere, the participant text is only stripped. */
  lemma CleanParticipantNoScore(raw: string)
    requires forall p, q :: 0 <= p <= q <= |raw| && EndAnchor(raw, q) ==> !ScoreShape(raw[p..q])
    ensures CleanParticipant(raw) == Strip(raw)
  {
    var e := ScoreEnd(raw);
    if DigitRunStart(raw, e) < e {
      ScoreMatchAtStart(raw);
    }
  }

  /** A name whose last character is neither a digit nor a newline is only stripped. */
  lemma CleanParticipantNoTrailingDigit(raw: string)
    requires raw == [] || (!IsDigit(raw[|raw| - 1]) && raw[|raw| - 1] != '\n')
    ensures CleanParticipant(raw) == Strip(raw)
  {
    forall p, q | 0 <= p <= q <= |raw| && EndAnchor(raw, q) ensures !ScoreShape(raw[p..q]) {
      if ScoreShape(raw[p..q]) {
        ScoreMatchBound(raw, p, q);
      }
    }
    CleanParticipantNoScore(raw);
  }

  // ---------------------------------------------------------------------------
  // Rows
  // ---------------------------------------------------------------------------

  /** One match element: the text of each sub-element, or `None` where it is missing. */
  datatype Element = Element(time: Option<string>, home: Option<string>, away: Option<string>)

  /** One source page: its URL and the match elements on it, in page order. */
  datatype Page = Page(url: string, elements: seq<Element>)

  /** The header line of the output table. */
  const Header: seq<string> := ["url", "match_time", "home", "away"]

  predicate Complete(el: Element)
  {
    el.time.Some? && el.home.Some? && el.away.Some?
  }

  /** The row written for an element that has all three sub-elements. */
  function RowOf(url: string, el: Element): seq<string>
    requires Complete(el)
  {
    [url, MatchTime(el.time.value), CleanParticipant(el.home.value), CleanParticipant(el.away.value)]
  }

  /** The body of the element loop: a row, or nothing when a sub-element lookup fails. */
  function ExtractRow(url: string, el: Element): Option<seq<string>>
  {
    if Complete(el) then Some(RowOf(url, el)) else None
  }

  function Extractor(url: string): Element -> Option<seq<string>>
  {
    (el: Element) => ExtractRow(url, el)
  }

  /** The rows one page contributes, in element order. */
  function PageRows(url: string, els: seq<Element>): seq<seq<string>>
  {
    FilterMap(Extractor(url), els)
  }

  /** The rows of all pages, page after page. */
  function AllRows(pages: seq<Page>): seq<seq<string>>
  {
    if pages == [] then [] else PageRows(pages[0].url, pages[0].elements) + AllRows(pages[1..])
  }

  /** Rows of consecutive stretches of pages are written one stretch after the other. */
  lemma {:induction false} AllRowsAppend(a: seq<Page>, b: seq<Page>)
    ensures AllRows(a + b) == AllRows(a) + AllRows(b)
  {
    if a == [] {
      assert a + b == b;
    } else {
      assert (a + b)[0] == a[0] && (a + b)[1..] == a[1..] + b;
      AllRowsAppend(a[1..], b);
    }
  }

  /** The rows of a prefix of the pages grow by the rows of the next page. */
  lemma AllRowsStep(pages: seq<Page>, p: nat)
    requires p < |pages|
    ensures AllRows(pages[..p + 1]) == AllRows(pages[..p]) + PageRows(pages[p].url, pages[p].elements)
  {
    assert pages[..p + 1] == pages[..p] + [pages[p]];
    AllRowsAppend(pages[..p], [pages[p]]);
    assert AllRows([pages[p]]) == PageRows(pages[p].url, pages[p].elements) + AllRows([]);
  }

  /** One more element adds its row when it is complete, and nothing otherwise. */
  lemma PageRowsStep(url: string, els: seq<Element>, e: nat)
    requires e < |els|
    ensures PageRows(url, els[..e + 1]) ==
      PageRows(url, els[..e]) + (if Complete(els[e]) then [RowOf(url, els[e])] else [])
  {
    FilterMapStep(Extractor(url), els, e);
  }

  /** An element missing a sub-element writes nothing, and the elements after it are still processed. */
  lemma PageRowsSkip(url: string, els: seq<Element>, k: nat)
    requires k < |els| && !Complete(els[k])
    ensures PageRows(url, els) == PageRows(url, els[..k]) + PageRows(url, els[k + 1..])
  {
    FilterMapSkip(Extractor(url), els, k);
  }

  /** A page whose elements are all complete gives exactly one row per element, in element order. */
  lemma PageRowsAllComplete(url: string, els: seq<Element>)
    requires forall k :: 0 <= k < |els| ==> Complete(els[k])
    ensures |PageRows(url, els)| == |els|
    ensures forall k :: 0 <= k < |els| ==> PageRows(url, els)[k] == RowOf(url, els[k])
  {
    FilterMapAll(Extractor(url), els);
  }

  /**
   * The rows of a page, exactly: row `j` is the row of the complete element
   * at `Kept(Extractor(url), els)[j]`; those indices increase, and every
   * complete element is among them. Every row starts with the page's URL.
   */
  lemma PageRowsOrder(url: string, els: seq<Element>)
    ensures |PageRows(url, els)| == |Kept(Extractor(url), els)| <= |els|
    ensures forall j :: 0 <= j < |PageRows(url, els)| ==>
      Kept(Extractor(url), els)[j] < |els| && Complete(els[Kept(Extractor(url), els)[j]]) &&
      PageRows(url, els)[j] == RowOf(url, els[Kept(Extractor(url), els)[j]]) &&
      PageRows(url, els)[j][0] == url
    ensures forall j, k :: 0 <= j < k < |PageRows(url, els)| ==>
      Kept(Extractor(url), els)[j] < Kept(Extractor(url), els)[k]
    ensures forall i :: 0 <= i < |els| && Complete(els[i]) ==> i in Kept(Extractor(url), els)
  {
    FilterMapKept(Extractor(url), els);
  }

  /**
   * The scraping loop: the header, then for each URL in order and each of its
   * elements in order, the element's row, skipping elements a lookup fails on.
   */
  method Scrape(pages: seq<Page>) returns (lines: seq<seq<string>>)
    ensures lines == [Header] + AllRows(pages)
  {
    lines := [Header];
    for p := 0 to |pages|
      invariant lines == [Header] + AllRows(pages[..p])
    {
      var url := pages[p].url;
      var elements := pages[p].elements;
      ghost var before := lines;
      for e := 0 to |elements|
        invariant lines == before + PageRows(url, elements[..e])
      {
        var el := elements[e];
        PageRowsStep(url, elements, e);
        if Complete(el) {
          AppendAssoc(before, PageRows(url, elements[..e]), [RowOf(url, el)]);
          lines := lines + [RowOf(url, el)];
        } else {
          assert PageRows(url, elements[..e + 1]) == PageRows(url, elements[..e]) + [];
        }
      }
      assert elements[..|elements|] == elements;
      AllRowsStep(pages, p);
      AppendAssoc([Header], AllRows(pages[..p]), PageRows(url, elements));
    }
    assert pages[..|pages|] == pages;
  }
}
