/**
 * Team-name normalisation and the filter that keeps, and relabels, the
 * scraped `(team, iso_date)` rows whose team is on the canonical list.
 */
module FilterScrapedMatches {
  import opened Wrappers
  import opened Text
  import opened Seqs

  // ---------------------------------------------------------------------------
  // normalize: re.sub(r'\s*\([^)]*\)', '', name)
  // ---------------------------------------------------------------------------

  /** The first `)` at or after position `q`. */
  function CloseFrom(s: string, q: nat): (r: Option<nat>)
    requires q <= |s|
    ensures r.Some? ==> q <= r.value < |s| && s[r.value] == ')'
    ensures r.Some? ==> forall x :: q <= x < r.value ==> s[x] != ')'
    ensures r.None? ==> forall x :: q <= x < |s| ==> s[x] != ')'
    decreases |s| - q
  {
    if q == |s| then None else if s[q] == ')' then Some(q) else CloseFrom(s, q + 1)
  }

  /**
   * Where the match of `\s*\([^)]*\)` starting at `p` ends, if there is one:
   * the whitespace run, an opening parenthesis, and everything up to and
   * including the first closing one.
   */
  function GroupEnd(s: string, p: nat): (r: Option<nat>)
    requires p <= |s|
    ensures r.Some? ==> p < r.value <= |s|
  {
    var q := SpaceRunEnd(s, p);
    if q < |s| && s[q] == '(' then
      match CloseFrom(s, q + 1)
      case Some(c) => Some(c + 1)
      case None => None
    else None
  }

  /** The substitution scan from position `p`: a match is dropped, any other character is copied. */
  function NormalizeFrom(s: string, p: nat): string
    requires p <= |s|
    decreases |s| - p
  {
    if p == |s| then []
    else match GroupEnd(s, p)
      case Some(e) => NormalizeFrom(s, e)
      case None => [s[p]] + NormalizeFrom(s, p + 1)
  }

  /** `normalize(name)`: every parenthesised tag dropped, with the whitespace before it. */
  function Normalize(name: string): string
  {
    NormalizeFrom(name, 0)
  }

  /** `a` is `b` with some characters deleted. */
  predicate IsSubsequence(a: string, b: string)
    decreases |b|
  {
    if b == [] then a == []
    else (a != [] && a[0] == b[0] && IsSubsequence(a[1..], b[1..])) || IsSubsequence(a, b[1..])
  }

  /** No `(` in `t` from position `p` on is followed, anywhere later, by a `)`. */
  predicate NoGroupFrom(t: string, p: nat)
  {
    forall i, j :: p <= i < j < |t| && t[i] == '(' ==> t[j] != ')'
  }

  lemma {:induction false} SubsequenceLength(a: string, b: string)
    requires IsSubsequence(a, b)
    ensures |a| <= |b|
    decreases |b|
  {
    if b != [] {
      if a != [] && a[0] == b[0] && IsSubsequence(a[1..], b[1..]) {
        SubsequenceLength(a[1..], b[1..]);
      } else {
        SubsequenceLength(a, b[1..]);
      }
    }
  }

  lemma {:induction false} SubsequenceChars(a: string, b: string, c: char)
    requires IsSubsequence(a, b) && c in a
    ensures c in b
    decreases |b|
  {
    if a != [] && a[0] == b[0] && IsSubsequence(a[1..], b[1..]) {
      if a[0] != c {
        SubsequenceChars(a[1..], b[1..], c);
      }
    } else {
      SubsequenceChars(a, b[1..], c);
    }
  }

  /** A subsequence of a suffix is a subsequence of the whole. */
  lemma {:induction false} SubsequenceOfSuffix(a: string, s: string, p: nat, e: nat)
    requires p <= e <= |s| && IsSubsequence(a, s[e..])
    ensures IsSubsequence(a, s[p..])
    decreases e - p
  {
    if p < e {
      SubsequenceOfSuffix(a, s, p + 1, e);
      assert s[p..][1..] == s[p + 1..];
    }
  }

  lemma {:induction false} NormalizeFromSubsequence(s: string, p: nat)
    requires p <= |s|
    ensures IsSubsequence(NormalizeFrom(s, p), s[p..])
    decreases |s| - p
  {
    if p < |s| {
      match GroupEnd(s, p)
      case Some(e) =>
        NormalizeFromSubsequence(s, e);
        SubsequenceOfSuffix(NormalizeFrom(s, e), s, p, e);
      case None =>
        NormalizeFromSubsequence(s, p + 1);
        assert s[p..][0] == s[p] && s[p..][1..] == s[p + 1..];
        var r := NormalizeFrom(s, p);
        assert r[0] == s[p] && r[1..] == NormalizeFrom(s, p + 1);
    }
  }

  /** `normalize` only deletes characters: its result is a subsequence of the name, never longer. */
  lemma NormalizeDeletesOnly(name: string)
    ensures IsSubsequence(Normalize(name), name)
    ensures |Normalize(name)| <= |name|
  {
    NormalizeFromSubsequence(name, 0);
    assert name[0..] == name;
    SubsequenceLength(Normalize(name), name);
  }

  /** What the scan leaves has no `(` followed later by a `)`. */
  lemma {:induction false} NormalizeFromNoGroup(s: string, p: nat)
    requires p <= |s|
    ensures NoGroupFrom(NormalizeFrom(s, p), 0)
    decreases |s| - p
  {
    if p < |s| {
      match GroupEnd(s, p)
      case Some(e) =>
        NormalizeFromNoGroup(s, e);
      case None =>
        NormalizeFromNoGroup(s, p + 1);
        var rest := NormalizeFrom(s, p + 1);
        var r := NormalizeFrom(s, p);
        assert r == [s[p]] + rest;
        if s[p] == '(' {
          assert SpaceRunEnd(s, p) == p;
          assert CloseFrom(s, p + 1).None?;
          NormalizeFromSubsequence(s, p + 1);
          if ')' in rest {
            SubsequenceChars(rest, s[p + 1..], ')');
          }
        }
        forall i, j | 0 <= i < j < |r| && r[i] == '(' ensures r[j] != ')' {
          assert r[j] == rest[j - 1];
          if i > 0 {
            assert rest[i - 1] == '(';
          } else {
            assert r[j] in rest;
          }
        }
    }
  }

  /** Text with no `(` followed later by a `)` is left as it is by the scan. */
  lemma {:induction false} NormalizeFromFixed(t: string, p: nat)
    requires p <= |t| && NoGroupFrom(t, p)
    ensures NormalizeFrom(t, p) == t[p..]
    decreases |t| - p
  {
    if p < |t| {
      assert GroupEnd(t, p).None?;
      NormalizeFromFixed(t, p + 1);
      assert t[p..] == [t[p]] + t[p + 1..];
    }
  }

  /** A name in which no `(` is followed by a `)` has nothing to drop: `normalize` returns it unchanged. */
  lemma NormalizeNoGroup(name: string)
    requires NoGroupFrom(name, 0)
    ensures Normalize(name) == name
  {
    NormalizeFromFixed(name, 0);
    assert name[0..] == name;
  }

  /** A name without `(` is returned unchanged. */
  lemma NormalizeNoParen(name: string)
    requires '(' !in name
    ensures Normalize(name) == name
  {
    NormalizeNoGroup(name);
  }

  /** `normalize` is idempotent. */
  lemma NormalizeIdempotent(name: string)
    ensures Normalize(Normalize(name)) == Normalize(name)
  {
    NormalizeFromNoGroup(name, 0);
    NormalizeNoGroup(Normalize(name));
  }

  /** The scan of `u + b` once past `u` is the scan of `b`. */
  lemma {:induction false} NormalizeFromShift(u: string, b: string, p: nat)
    requires p <= |b|
    ensures NormalizeFrom(u + b, |u| + p) == NormalizeFrom(b, p)
    decreases |b| - p
  {
    if p < |b| {
      assert (u + b)[|u| + p] == b[p];
      GroupEndShift(u, b, p);
      match GroupEnd(b, p)
      case Some(e) =>
        NormalizeFromShift(u, b, e);
      case None =>
        NormalizeFromShift(u, b, p + 1);
    }
  }

  lemma GroupEndShift(u: string, b: string, p: nat)
    requires p <= |b|
    ensures GroupEnd(u + b, |u| + p) ==
      (if GroupEnd(b, p).Some? then Some(|u| + GroupEnd(b, p).value) else None)
  {
    var s := u + b;
    assert forall x :: |u| <= x < |s| ==> s[x] == b[x - |u|];
    var q := SpaceRunEnd(b, p);
    SpaceRunEndIs(s, |u| + p, |u| + q);
    if q < |b| && b[q] == '(' {
      CloseFromShift(u, b, q + 1);
    }
  }

  lemma {:induction false} CloseFromShift(u: string, b: string, q: nat)
    requires q <= |b|
    ensures CloseFrom(u + b, |u| + q) ==
      (if CloseFrom(b, q).Some? then Some(|u| + CloseFrom(b, q).value) else None)
    decreases |b| - q
  {
    if q < |b| {
      assert (u + b)[|u| + q] == b[q];
      CloseFromShift(u, b, q + 1);
    }
  }

  /**
   * A closed group `(x)`, with no `)` inside, is dropped together with all the
   * whitespace before it, also whitespace ending the text `a` before it; the
   * text after it is normalised on its own.
   */
  lemma NormalizeDropsGroup(a: string, w: string, x: string, b: string)
    requires '(' !in a && AllSpace(w) && ')' !in x
    ensures Normalize(a + w + "(" + x + ")" + b) == a[..SpaceRunStart(a, |a|)] + Normalize(b)
  {
    assert forall y :: 0 <= y < |a| ==> a[y] != '(' by {
      forall y | 0 <= y < |a| ensures a[y] != '(' {
        assert a[y] in a;
      }
    }
    GroupTextShape(w, x);
    NormalizeDropsGroupText(a, w + "(" + x + ")", b, |w|);
    Regroup(a, w, x, b);
  }

  /** `w + "(" + x + ")"` is whitespace, then `(`, then no `)` until the last character, which is `)`. */
  lemma GroupTextShape(w: string, x: string)
    requires AllSpace(w) && ')' !in x
    ensures var g := w + "(" + x + ")";
      |w| + 1 < |g| && g[|w|] == '(' && g[|g| - 1] == ')' &&
      (forall y :: 0 <= y < |w| ==> IsSpace(g[y])) &&
      (forall y :: |w| < y < |g| - 1 ==> g[y] != ')')
  {
    var g := w + "(" + x + ")";
    forall y | 0 <= y < |w| ensures IsSpace(g[y]) {
      assert g[y] == w[y];
    }
    forall y | |w| < y < |g| - 1 ensures g[y] != ')' {
      assert g[y] == x[y - |w| - 1];
      assert x[y - |w| - 1] in x;
    }
  }

  lemma Regroup(a: string, w: string, x: string, b: string)
    ensures a + w + "(" + x + ")" + b == a + (w + "(" + x + ")") + b
  {
    AppendAssoc(a, w + "(" + x, ")");
    AppendAssoc(a, w + "(", x);
    AppendAssoc(a, w, "(");
  }

  /** The same with the group given as one text `g`: whitespace up to `o`, `(` at `o`, its first `)` at its end. */
  lemma NormalizeDropsGroupText(a: string, g: string, b: string, o: nat)
    requires forall y :: 0 <= y < |a| ==> a[y] != '('
    requires o + 1 < |g| && g[o] == '(' && g[|g| - 1] == ')'
    requires forall y :: 0 <= y < o ==> IsSpace(g[y])
    requires forall y :: o < y < |g| - 1 ==> g[y] != ')'
    ensures Normalize(a + g + b) == a[..SpaceRunStart(a, |a|)] + Normalize(b)
  {
    GroupAfterText(a, g, b, o);
    NormalizeUpToGroup(a + g, b, a);
    NormalizeShifted(a + g, b);
  }

  /** The scan of `u + b` from the end of `u` is `normalize(b)`. */
  lemma NormalizeShifted(u: string, b: string)
    ensures NormalizeFrom(u + b, |u|) == Normalize(b)
  {
    NormalizeFromShift(u, b, 0);
  }

  /** In `a + g + b` the match starts where the whitespace ending `a` starts and ends with `g`. */
  lemma GroupAfterText(a: string, g: string, b: string, o: nat)
    requires o + 1 < |g| && g[o] == '(' && g[|g| - 1] == ')'
    requires forall y :: 0 <= y < o ==> IsSpace(g[y])
    requires forall y :: o < y < |g| - 1 ==> g[y] != ')'
    ensures GroupEnd(a + g + b, SpaceRunStart(a, |a|)) == Some(|a + g|)
  {
    var u := a + g;
    var s := u + b;
    var r := SpaceRunStart(a, |a|);
    forall y | r <= y < |a| + o ensures IsSpace(s[y]) {
      if y >= |a| {
        assert s[y] == g[y - |a|];
      } else {
        assert s[y] == a[y];
      }
    }
    forall y | |a| + o < y < |u| - 1 ensures s[y] != ')' {
      assert s[y] == g[y - |a|];
    }
    assert s[|a| + o] == g[o];
    assert s[|u| - 1] == g[|g| - 1];
    GroupAt(s, r, |a| + o, |u| - 1);
  }

  /** In `u + b`, where `u` starts with `a`, free of `(`, and a match runs from the start of `a`'s trailing whitespace to the end of `u`. */
  lemma NormalizeUpToGroup(u: string, b: string, a: string)
    requires |a| <= |u| && u[..|a|] == a
    requires forall y :: 0 <= y < |a| ==> a[y] != '('
    requires GroupEnd(u + b, SpaceRunStart(a, |a|)) == Some(|u|)
    ensures Normalize(u + b) == a[..SpaceRunStart(a, |a|)] + NormalizeFrom(u + b, |u|)
  {
    var s := u + b;
    var r := SpaceRunStart(a, |a|);
    assert forall y :: 0 <= y < |a| ==> s[y] == a[y] by {
      forall y | 0 <= y < |a| ensures s[y] == a[y] {
        assert s[y] == u[y] == u[..|a|][y];
      }
    }
    NormalizeBeforeGroup(s, 0, r, |u|);
    assert s[0..r] == a[..r];
  }

  /** Whitespace from `r` to `o`, `(` at `o`, no `)` until `c`, `)` at `c`: a group from `r` to `c`. */
  lemma GroupAt(s: string, r: nat, o: nat, c: nat)
    requires r <= o < c < |s|
    requires forall y :: r <= y < o ==> IsSpace(s[y])
    requires s[o] == '(' && s[c] == ')'
    requires forall y :: o < y < c ==> s[y] != ')'
    ensures GroupEnd(s, r) == Some(c + 1)
  {
    SpaceRunEndIs(s, r, o);
    CloseFromIs(s, o + 1, c);
  }

  lemma {:induction false} CloseFromIs(s: string, q: nat, c: nat)
    requires q <= c < |s| && s[c] == ')' && forall y :: q <= y < c ==> s[y] != ')'
    ensures CloseFrom(s, q) == Some(c)
    decreases c - q
  {
    if q < c {
      CloseFromIs(s, q + 1, c);
    }
  }

  /**
   * From `p` up to `r`, where a group starts, the scan copies every character:
   * none is `(`, and the one before `r` is not whitespace.
   */
  lemma {:induction false} NormalizeBeforeGroup(s: string, p: nat, r: nat, m: nat)
    requires p <= r <= |s| && m <= |s|
    requires forall y :: p <= y < r ==> s[y] != '('
    requires r > p ==> !IsSpace(s[r - 1])
    requires GroupEnd(s, r) == Some(m)
    ensures NormalizeFrom(s, p) == s[p..r] + NormalizeFrom(s, m)
    decreases r - p
  {
    if p < r {
      NoGroupBefore(s, p, r);
      NormalizeFromCopies(s, p);
      NormalizeBeforeGroup(s, p + 1, r, m);
      SliceCons(s, p, r);
      AppendAssoc([s[p]], s[p + 1..r], NormalizeFrom(s, m));
    }
  }

  /** No match starts at `p` when the next non-space character, before `r`, is not `(`. */
  lemma NoGroupBefore(s: string, p: nat, r: nat)
    requires p < r <= |s|
    requires forall y :: p <= y < r ==> s[y] != '('
    requires !IsSpace(s[r - 1])
    ensures GroupEnd(s, p).None?
  {
    var q := SpaceRunEnd(s, p);
    assert q < r;
  }

  /** Where no match starts, the scan copies the character and moves on. */
  lemma NormalizeFromCopies(s: string, p: nat)
    requires p < |s| && GroupEnd(s, p).None?
    ensures NormalizeFrom(s, p) == [s[p]] + NormalizeFrom(s, p + 1)
  {
  }

  // ---------------------------------------------------------------------------
  // Canonical names: {normalize(t): t for t in teams}
  // ---------------------------------------------------------------------------

  /**
   * The dictionary from normalised form to canonical spelling. Its keys are
   * the normalised forms of the list's names, and each value is a name from
   * the list whose normalised form is its key.
   */
  function CanonicalMap(teams: seq<string>): (m: map<string, string>)
    ensures m.Keys == set t | t in teams :: Normalize(t)
    ensures forall k :: k in m ==> m[k] in teams && Normalize(m[k]) == k
  {
    if teams == [] then map[]
    else
      var n := |teams| - 1;
      var m := CanonicalMap(teams[..n]);
      assert teams == teams[..n] + [teams[n]];
      m[Normalize(teams[n]) := teams[n]]
  }

  /** On a collision the later name wins: each key maps to the last name with that normalised form. */
  lemma {:induction false} CanonicalMapLastWins(teams: seq<string>, i: nat)
    requires i < |teams|
    requires forall j :: i < j < |teams| ==> Normalize(teams[j]) != Normalize(teams[i])
    ensures CanonicalMap(teams)[Normalize(teams[i])] == teams[i]
  {
    var n := |teams| - 1;
    if i < n {
      CanonicalMapLastWins(teams[..n], i);
    }
  }

  // ---------------------------------------------------------------------------
  // The filter loop
  // ---------------------------------------------------------------------------

  /** A scraped row: the `team` and `iso_date` columns. */
  datatype ScrapedRow = ScrapedRow(team: string, isoDate: string)

  /** An output row: the `team` and `date` columns. */
  datatype FilteredRow = FilteredRow(team: string, date: string)

  /** The loop body: keep a row whose normalised team is a key, under its canonical spelling. */
  function Relabel(canon: map<string, string>): ScrapedRow -> Option<FilteredRow>
  {
    (row: ScrapedRow) => var norm := Normalize(row.team);
                         if norm in canon then Some(FilteredRow(canon[norm], row.isoDate)) else None
  }

  /** The rows the loop appends, in input order. */
  function Filtered(matches: seq<ScrapedRow>, canon: map<string, string>): seq<FilteredRow>
  {
    FilterMap(Relabel(canon), matches)
  }

  /** One more scraped row adds its relabelled row when its normalised team is a key, and nothing otherwise. */
  lemma FilteredStep(matches: seq<ScrapedRow>, canon: map<string, string>, i: nat)
    requires i < |matches|
    ensures Filtered(matches[..i + 1], canon) == Filtered(matches[..i], canon) +
      (if Normalize(matches[i].team) in canon
       then [FilteredRow(canon[Normalize(matches[i].team)], matches[i].isoDate)] else [])
  {
    FilterMapStep(Relabel(canon), matches, i);
  }

  /** The script: build the canonical dictionary, then filter and relabel the scraped rows. */
  method FilterMatches(matches: seq<ScrapedRow>, teams: seq<string>) returns (rows: seq<FilteredRow>)
    ensures rows == Filtered(matches, CanonicalMap(teams))
  {
    var teamsNorm := CanonicalMap(teams);
    rows := [];
    for i := 0 to |matches|
      invariant rows == Filtered(matches[..i], teamsNorm)
    {
      FilteredStep(matches, teamsNorm, i);
      var rawName := matches[i].team;
      var isoDate := matches[i].isoDate;
      var norm := Normalize(rawName);
      if norm in teamsNorm {
        rows := rows + [FilteredRow(teamsNorm[norm], isoDate)];
      }
    }
    assert matches[..|matches|] == matches;
  }

  /**
   * The filter, exactly: output row `j` comes from input row
   * `Kept(Relabel(canon), matches)[j]`; those indices increase; a row is
   * kept exactly when its normalised team is a key of the dictionary; a kept
   * row's team is the canonical spelling for that key, a name on the list
   * with the same normalised form, and its date is the row's `iso_date`.
   */
  lemma FilteredSpec(matches: seq<ScrapedRow>, teams: seq<string>)
    ensures var canon := CanonicalMap(teams);
      var rows := Filtered(matches, canon);
      var idx := Kept(Relabel(canon), matches);
      |rows| == |idx| <= |matches| &&
      (forall j :: 0 <= j < |rows| ==>
        idx[j] < |matches| && Normalize(matches[idx[j]].team) in canon &&
        rows[j].team == canon[Normalize(matches[idx[j]].team)] &&
        rows[j].team in teams && Normalize(rows[j].team) == Normalize(matches[idx[j]].team) &&
        rows[j].date == matches[idx[j]].isoDate) &&
      (forall j, k :: 0 <= j < k < |rows| ==> idx[j] < idx[k]) &&
      (forall i :: 0 <= i < |matches| ==> (i in idx <==> Normalize(matches[i].team) in canon))
  {
    var canon := CanonicalMap(teams);
    FilterMapKept(Relabel(canon), matches);
    var idx := Kept(Relabel(canon), matches);
    forall i | 0 <= i < |matches| && i in idx ensures Normalize(matches[i].team) in canon {
      var j :| 0 <= j < |idx| && idx[j] == i;
    }
  }
}
