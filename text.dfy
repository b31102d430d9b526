/**
 * Character classes and trimming as Python 3 applies them to `str` values.
 * `str.strip()` and the regular-expression class `\s` use the same
 * whitespace table, so one predicate serves both.
 */
module Text {

  /** Python's whitespace table (what `\s` and `str.strip()` treat as space). */
  predicate IsSpace(c: char)
  {
    var n := c as int;
    (0x09 <= n <= 0x0D) || (0x1C <= n <= 0x20) || n == 0x85 || n == 0xA0 || n == 0x1680
    || (0x2000 <= n <= 0x200A) || n == 0x2028 || n == 0x2029 || n == 0x202F
    || n == 0x205F || n == 0x3000
  }

  /** The regular-expression class `\d`, restricted to ASCII digits. */
  predicate IsDigit(c: char)
  {
    '0' <= c <= '9'
  }

  predicate AllSpace(s: string)
  {
    forall i :: 0 <= i < |s| ==> IsSpace(s[i])
  }

  /** Where the run of whitespace that starts at position `q` ends. */
  function SpaceRunEnd(s: string, q: nat): (r: nat)
    requires q <= |s|
    ensures q <= r <= |s|
    ensures forall x :: q <= x < r ==> IsSpace(s[x])
    ensures r < |s| ==> !IsSpace(s[r])
    decreases |s| - q
  {
    if q == |s| || !IsSpace(s[q]) then q else SpaceRunEnd(s, q + 1)
  }

  /** Where the run of whitespace that ends just before position `e` starts. */
  function SpaceRunStart(s: string, e: nat): (r: nat)
    requires e <= |s|
    ensures r <= e
    ensures forall x :: r <= x < e ==> IsSpace(s[x])
    ensures r > 0 ==> !IsSpace(s[r - 1])
  {
    if e == 0 || !IsSpace(s[e - 1]) then e else SpaceRunStart(s, e - 1)
  }

  /** Where the run of digits that ends just before position `e` starts. */
  function DigitRunStart(s: string, e: nat): (r: nat)
    requires e <= |s|
    ensures r <= e
    ensures forall x :: r <= x < e ==> IsDigit(s[x])
    ensures r > 0 ==> !IsDigit(s[r - 1])
  {
    if e == 0 || !IsDigit(s[e - 1]) then e else DigitRunStart(s, e - 1)
  }

  /** A whitespace run from `q` that stops at a non-space (or the end) is the longest one. */
  lemma {:induction false} SpaceRunEndIs(s: string, q: nat, r: nat)
    requires q <= r <= |s|
    requires forall x :: q <= x < r ==> IsSpace(s[x])
    requires r < |s| ==> !IsSpace(s[r])
    ensures SpaceRunEnd(s, q) == r
    decreases r - q
  {
    if q < r {
      SpaceRunEndIs(s, q + 1, r);
    }
  }

  /** A whitespace run up to `e` that starts after a non-space (or the start) is the longest one. */
  lemma {:induction false} SpaceRunStartIs(s: string, e: nat, r: nat)
    requires r <= e <= |s|
    requires forall x :: r <= x < e ==> IsSpace(s[x])
    requires r > 0 ==> !IsSpace(s[r - 1])
    ensures SpaceRunStart(s, e) == r
    decreases e - r
  {
    if r < e {
      SpaceRunStartIs(s, e - 1, r);
    }
  }

  /** A whitespace run ending at `e` reaches back at least as far as any all-space stretch before `e`. */
  lemma {:induction false} SpaceRunStartBelow(s: string, e: nat, m: nat)
    requires m <= e <= |s|
    requires forall x :: m <= x < e ==> IsSpace(s[x])
    ensures SpaceRunStart(s, e) <= m
    decreases e - m
  {
    if m < e {
      SpaceRunStartBelow(s, e - 1, m);
    }
  }

  /** A digit run ending at `e` reaches back at least as far as any all-digit stretch before `e`. */
  lemma {:induction false} DigitRunStartBelow(s: string, e: nat, m: nat)
    requires m <= e <= |s|
    requires forall x :: m <= x < e ==> IsDigit(s[x])
    ensures DigitRunStart(s, e) <= m
    decreases e - m
  {
    if m < e {
      DigitRunStartBelow(s, e - 1, m);
    }
  }

  /** True when `r` neither starts nor ends with whitespace. */
  predicate Trimmed(r: string)
  {
    r == [] || (!IsSpace(r[0]) && !IsSpace(r[|r| - 1]))
  }

  /** `r` is the piece of `s` at offset `a`, with only whitespace around it. */
  predicate CutFrom(s: string, r: string, a: nat)
  {
    a + |r| <= |s| && r == s[a..a + |r|] && AllSpace(s[..a]) && AllSpace(s[a + |r|..])
  }

  /** `str.strip()` with no argument: never longer than `s`, and trimmed. */
  function Strip(s: string): (r: string)
    ensures |r| <= |s| && Trimmed(r)
  {
    var a := SpaceRunEnd(s, 0);
    if a == |s| then []
    else
      var b := SpaceRunStart(s, |s|);
      assert a < b by { assert !IsSpace(s[a]); }
      s[a..b]
  }

  /** What `Strip` returns is a contiguous piece of `s`, and everything it cuts is whitespace. */
  lemma StripCut(s: string)
    ensures exists a: nat :: CutFrom(s, Strip(s), a)
  {
    var a := SpaceRunEnd(s, 0);
    if a == |s| {
      assert Strip(s) == [];
      assert CutFrom(s, [], 0) by { assert s[..0] == [] && s[0..] == s; }
    } else {
      var b := SpaceRunStart(s, |s|);
      assert a < b by { assert !IsSpace(s[a]); }
      assert forall x :: 0 <= x < |s[..a]| ==> s[..a][x] == s[x];
      assert forall x :: 0 <= x < |s[b..]| ==> s[b..][x] == s[b + x];
      assert Strip(s) == s[a..b];
      assert CutFrom(s, s[a..b], a);
    }
  }

  /** Stripping only removes characters: one absent from `s` is absent from `Strip(s)`. */
  lemma StripKeepsOut(s: string, c: char)
    requires c !in s
    ensures c !in Strip(s)
  {
    var r := Strip(s);
    StripCut(s);
    var a: nat :| CutFrom(s, r, a);
    assert forall i :: 0 <= i < |r| ==> r[i] == s[a + i];
  }

  /** The stripped text is determined: whitespace, a trimmed middle, whitespace gives the middle. */
  lemma StripIs(l: string, m: string, t: string)
    requires AllSpace(l) && AllSpace(t) && Trimmed(m)
    ensures Strip(l + m + t) == m
  {
    var s := l + m + t;
    assert forall x :: 0 <= x < |l| ==> s[x] == l[x];
    assert forall x :: |l| + |m| <= x < |s| ==> s[x] == t[x - |l| - |m|];
    if m == [] {
      SpaceRunEndIs(s, 0, |s|);
    } else {
      SpaceRunEndIs(s, 0, |l|);
      SpaceRunStartIs(s, |s|, |l| + |m|);
      assert s[|l|..|l| + |m|] == m;
    }
  }

  /** Whitespace appended after the text does not change what `strip()` returns. */
  lemma StripAppendSpace(s: string, t: string)
    requires AllSpace(t)
    ensures Strip(s + t) == Strip(s)
  {
    var r := Strip(s);
    StripCut(s);
    var a: nat :| CutFrom(s, r, a);
    var rest := s[a + |r|..] + t;
    assert AllSpace(rest) by {
      forall i | 0 <= i < |rest| ensures IsSpace(rest[i]) {
        if i < |s| - a - |r| {
          assert rest[i] == s[a + |r|..][i];
        } else {
          assert rest[i] == t[i - (|s| - a - |r|)];
        }
      }
    }
    assert s + t == s[..a] + r + rest;
    StripIs(s[..a], r, rest);
  }
}
