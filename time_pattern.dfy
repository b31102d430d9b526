/**
 * The date-time search of the match scraper: the regular expression
 * `\d{1,2}\.\d{1,2}\.\s*\d{1,2}:\d{2}` used with `re.search`.
 *
 * `DateTimeShape` says declaratively what text the expression matches;
 * `MatchEnd` is the matcher, which takes every repetition greedily. Each
 * repetition is followed by a character it cannot itself consume (a digit run
 * by `.` or `:`, the whitespace run by a digit), so backtracking never finds a
 * second way to match: the lemmas below show the greedy matcher finds exactly
 * the matches the shape describes, and at most one per starting position.
 */
module TimePattern {
  import opened Wrappers
  import opened Text

  /**
   * `t` is, in full, `n1` digits, `.`, `n2` digits, `.`, `k` whitespace
   * characters, `n3` digits, `:` and two digits.
   */
  ghost predicate DateTimeShape(t: string, n1: nat, n2: nat, k: nat, n3: nat)
  {
    var b := n1 + 1 + n2;
    var c := b + 1 + k;
    var d := c + n3;
    1 <= n1 <= 2 && 1 <= n2 <= 2 && 1 <= n3 <= 2 && |t| == d + 3 &&
    IsDigit(t[0]) && (n1 == 2 ==> IsDigit(t[1])) && t[n1] == '.' &&
    IsDigit(t[n1 + 1]) && (n2 == 2 ==> IsDigit(t[n1 + 2])) && t[b] == '.' &&
    (forall x :: b + 1 <= x < c ==> IsSpace(t[x])) &&
    IsDigit(t[c]) && (n3 == 2 ==> IsDigit(t[c + 1])) && t[d] == ':' &&
    IsDigit(t[d + 1]) && IsDigit(t[d + 2])
  }

  /** `t` is in the language of the date-time expression. */
  ghost predicate IsDateTime(t: string)
  {
    exists n1: nat, n2: nat, k: nat, n3: nat :: DateTimeShape(t, n1, n2, k, n3)
  }

  /** How many digits `\d{1,2}` takes greedily at position `p` (0: no match). */
  function DigitsAt(s: string, p: nat): (n: nat)
    requires p <= |s|
    ensures n <= 2 && p + n <= |s|
    ensures n > 0 ==> IsDigit(s[p]) && (n == 2 ==> IsDigit(s[p + 1]))
    ensures n == 0 ==> p >= |s| || !IsDigit(s[p])
    ensures n == 1 ==> p + 1 >= |s| || !IsDigit(s[p + 1])
  {
    if p < |s| && IsDigit(s[p]) then
      (if p + 1 < |s| && IsDigit(s[p + 1]) then 2 else 1)
    else 0
  }

  /** Where the greedy match of the whole expression starting at `i` ends, if it matches. */
  function MatchEnd(s: string, i: nat): (m: Option<nat>)
    requires i <= |s|
    ensures m.Some? ==> i < m.value <= |s|
  {
    var n1 := DigitsAt(s, i);
    if n1 == 0 || i + n1 >= |s| || s[i + n1] != '.' then None
    else
      var p := i + n1 + 1;
      var n2 := DigitsAt(s, p);
      if n2 == 0 || p + n2 >= |s| || s[p + n2] != '.' then None
      else
        var q := p + n2 + 1;
        var r := SpaceRunEnd(s, q);
        var n3 := DigitsAt(s, r);
        if n3 == 0 || r + n3 + 2 >= |s| || s[r + n3] != ':'
           || !IsDigit(s[r + n3 + 1]) || !IsDigit(s[r + n3 + 2]) then None
        else Some(r + n3 + 3)
  }

  /** `DateTimeShape` read in place: the text from `i` of `s` has that shape, ending at `i + n1 + n2 + k + n3 + 5`. */
  ghost predicate DateTimeAt(s: string, i: nat, n1: nat, n2: nat, k: nat, n3: nat)
  {
    var b := i + n1 + 1 + n2;
    var c := b + 1 + k;
    var d := c + n3;
    1 <= n1 <= 2 && 1 <= n2 <= 2 && 1 <= n3 <= 2 && d + 3 <= |s| &&
    IsDigit(s[i]) && (n1 == 2 ==> IsDigit(s[i + 1])) && s[i + n1] == '.' &&
    IsDigit(s[i + n1 + 1]) && (n2 == 2 ==> IsDigit(s[i + n1 + 2])) && s[b] == '.' &&
    (forall x :: b + 1 <= x < c ==> IsSpace(s[x])) &&
    IsDigit(s[c]) && (n3 == 2 ==> IsDigit(s[c + 1])) && s[d] == ':' &&
    IsDigit(s[d + 1]) && IsDigit(s[d + 2])
  }

  /** The slice `s[i..j]` has the shape exactly when `s` has it in place from `i`, ending at `j`. */
  lemma ShapeInPlace(s: string, i: nat, j: nat, n1: nat, n2: nat, k: nat, n3: nat)
    requires i <= j <= |s|
    ensures DateTimeShape(s[i..j], n1, n2, k, n3) <==>
      j == i + n1 + n2 + k + n3 + 5 && DateTimeAt(s, i, n1, n2, k, n3)
  {
    var t := s[i..j];
    assert forall x :: 0 <= x < |t| ==> t[x] == s[i + x];
    if j == i + n1 + n2 + k + n3 + 5 && 1 <= n1 <= 2 && 1 <= n2 <= 2 && 1 <= n3 <= 2 {
      var b := n1 + 1 + n2;
      var c := b + 1 + k;
      assert (forall x :: b + 1 <= x < c ==> IsSpace(t[x])) <==>
        (forall x :: i + b + 1 <= x < i + c ==> IsSpace(s[x])) by {
        if forall x :: b + 1 <= x < c ==> IsSpace(t[x]) {
          forall x | i + b + 1 <= x < i + c ensures IsSpace(s[x]) {
            assert s[x] == t[x - i];
          }
        }
      }
    }
  }

  /** A match the greedy matcher reports is a match of the expression. */
  lemma MatchEndSound(s: string, i: nat)
    requires i <= |s| && MatchEnd(s, i).Some?
    ensures i < MatchEnd(s, i).value <= |s| && IsDateTime(s[i..MatchEnd(s, i).value])
  {
    var n1 := DigitsAt(s, i);
    var p := i + n1 + 1;
    var n2 := DigitsAt(s, p);
    var q := p + n2 + 1;
    var r := SpaceRunEnd(s, q);
    var k := r - q;
    var n3 := DigitsAt(s, r);
    var j := r + n3 + 3;
    assert DateTimeAt(s, i, n1, n2, k, n3);
    ShapeInPlace(s, i, j, n1, n2, k, n3);
  }

  /** Every match of the expression starting at `i` is the one the greedy matcher reports. */
  lemma MatchEndComplete(s: string, i: nat, j: nat, n1: nat, n2: nat, k: nat, n3: nat)
    requires i <= j <= |s| && DateTimeShape(s[i..j], n1, n2, k, n3)
    ensures MatchEnd(s, i) == Some(j)
  {
    ShapeInPlace(s, i, j, n1, n2, k, n3);
    SpaceRunEndIs(s, i + n1 + n2 + 2, i + n1 + n2 + 2 + k);
    MatchEndSteps(s, i, n1, n2, k, n3);
  }

  /** The matcher's run, step by step, when every step succeeds. */
  lemma MatchEndSteps(s: string, i: nat, n1: nat, n2: nat, k: nat, n3: nat)
    requires i + n1 + n2 + k + n3 + 5 <= |s|
    requires DigitsAt(s, i) == n1 && n1 > 0 && s[i + n1] == '.'
    requires DigitsAt(s, i + n1 + 1) == n2 && n2 > 0 && s[i + n1 + 1 + n2] == '.'
    requires SpaceRunEnd(s, i + n1 + n2 + 2) == i + n1 + n2 + 2 + k
    requires DigitsAt(s, i + n1 + n2 + 2 + k) == n3 && n3 > 0
    requires s[i + n1 + n2 + k + n3 + 2] == ':'
    requires IsDigit(s[i + n1 + n2 + k + n3 + 3]) && IsDigit(s[i + n1 + n2 + k + n3 + 4])
    ensures MatchEnd(s, i) == Some(i + n1 + n2 + k + n3 + 5)
  {
  }

  /** `re.search` from position `i` on: the leftmost start at or after `i` with a match, and that match's end. */
  function SearchFrom(s: string, i: nat): (r: Option<(nat, nat)>)
    requires i <= |s|
    ensures r.Some? ==> i <= r.value.0 < r.value.1 <= |s|
    decreases |s| - i
  {
    if i == |s| then None
    else match MatchEnd(s, i)
      case Some(j) => Some((i, j))
      case None => SearchFrom(s, i + 1)
  }

  /** `re.search` over the whole text. */
  function Search(s: string): (r: Option<(nat, nat)>)
    ensures r.Some? ==> r.value.0 < r.value.1 <= |s|
  {
    SearchFrom(s, 0)
  }

  /** Some match of the expression starts at position `x` of `s`. */
  ghost predicate MatchStartsAt(s: string, x: nat)
  {
    exists y :: x <= y <= |s| && IsDateTime(s[x..y])
  }

  /** No match of the expression starts at `i` when the greedy matcher fails there. */
  lemma NoMatchAt(s: string, i: nat)
    requires i <= |s| && MatchEnd(s, i).None?
    ensures !MatchStartsAt(s, i)
  {
    if MatchStartsAt(s, i) {
      var j :| i <= j <= |s| && IsDateTime(s[i..j]);
      var n1: nat, n2: nat, k: nat, n3: nat :| DateTimeShape(s[i..j], n1, n2, k, n3);
      MatchEndComplete(s, i, j, n1, n2, k, n3);
      assert false;
    }
  }

  lemma {:induction false} SearchFromSpec(s: string, i: nat)
    requires i <= |s|
    ensures SearchFrom(s, i).Some? ==>
      i <= SearchFrom(s, i).value.0 < SearchFrom(s, i).value.1 <= |s| &&
      IsDateTime(s[SearchFrom(s, i).value.0..SearchFrom(s, i).value.1]) &&
      (forall x :: i <= x < SearchFrom(s, i).value.0 ==> !MatchStartsAt(s, x))
    ensures SearchFrom(s, i).None? ==> forall x :: i <= x <= |s| ==> !MatchStartsAt(s, x)
    decreases |s| - i
  {
    if i == |s| {
      NoMatchAt(s, i);
    } else if MatchEnd(s, i).Some? {
      MatchEndSound(s, i);
    } else {
      NoMatchAt(s, i);
      SearchFromSpec(s, i + 1);
      assert SearchFrom(s, i) == SearchFrom(s, i + 1);
      if SearchFrom(s, i).Some? {
        var a := SearchFrom(s, i).value.0;
        forall x | i <= x < a ensures !MatchStartsAt(s, x) {
          if x > i {
            assert i + 1 <= x < SearchFrom(s, i + 1).value.0;
          }
        }
      }
    }
  }

  /** The search result is the greedy match at the start it names. */
  lemma {:induction false} SearchFromStart(s: string, i: nat)
    requires i <= |s| && SearchFrom(s, i).Some?
    ensures i <= SearchFrom(s, i).value.0 <= |s|
    ensures MatchEnd(s, SearchFrom(s, i).value.0) == Some(SearchFrom(s, i).value.1)
    decreases |s| - i
  {
    if MatchEnd(s, i).None? {
      SearchFromStart(s, i + 1);
    }
  }

  /**
   * `s[a..b]` is the leftmost occurrence of the expression in `s`, and the
   * only one that starts at `a`.
   */
  ghost predicate LeftmostDateTime(s: string, a: nat, b: nat)
  {
    a < b <= |s| && IsDateTime(s[a..b]) &&
    (forall x :: 0 <= x < a ==> !MatchStartsAt(s, x)) &&
    (forall y :: a <= y <= |s| && IsDateTime(s[a..y]) ==> y == b)
  }

  /**
   * What `re.search` returns: when the expression occurs in `s`, its leftmost
   * occurrence; nothing exactly when it occurs nowhere.
   */
  lemma SearchSpec(s: string)
    ensures Search(s).Some? ==> LeftmostDateTime(s, Search(s).value.0, Search(s).value.1)
    ensures Search(s).None? <==> forall x :: 0 <= x <= |s| ==> !MatchStartsAt(s, x)
  {
    SearchFromSpec(s, 0);
    if Search(s).Some? {
      var (a, b) := Search(s).value;
      SearchFromStart(s, 0);
      assert MatchStartsAt(s, a);
      forall y | a <= y <= |s| && IsDateTime(s[a..y]) ensures y == b {
        var n1: nat, n2: nat, k: nat, n3: nat :| DateTimeShape(s[a..y], n1, n2, k, n3);
        MatchEndComplete(s, a, y, n1, n2, k, n3);
      }
    }
  }
}
