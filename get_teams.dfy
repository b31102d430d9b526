/**
 * The team list: every team that plays in a focal fixture, once each, in the
 * order in which the fixtures first mention it (home before away).
 */
module GetTeams {

  /** One row of the focal fixture table, reduced to the two columns used. */
  datatype Fixture = Fixture(homeTeam: string, awayTeam: string)

  /** The two team columns read row by row: `home0, away0, home1, away1, ...`. */
  function Ravel(rows: seq<Fixture>): (r: seq<string>)
    ensures |r| == 2 * |rows|
    ensures forall i :: 0 <= i < |rows| ==> r[2 * i] == rows[i].homeTeam && r[2 * i + 1] == rows[i].awayTeam
  {
    if rows == [] then []
    else
      var rest := Ravel(rows[1..]);
      assert forall i :: 1 <= i < |rows| ==> rows[1..][i - 1] == rows[i];
      [rows[0].homeTeam, rows[0].awayTeam] + rest
  }

  predicate Distinct<T(==)>(s: seq<T>)
  {
    forall i, j :: 0 <= i < j < |s| ==> s[i] != s[j]
  }

  /** The values of `s` with every repetition after the first dropped. */
  function Unique<T(==)>(s: seq<T>): (u: seq<T>)
    ensures Distinct(u)
    ensures forall i :: 0 <= i < |s| ==> s[i] in u
    ensures forall i :: 0 <= i < |u| ==> u[i] in s
    ensures |u| <= |s|
  {
    if s == [] then []
    else
      var u := Unique(s[..|s| - 1]);
      var c := s[|s| - 1];
      assert s == s[..|s| - 1] + [c];
      if c in u then u else u + [c]
  }

  /** The position where `x` first occurs in `s`. */
  function FirstIndex<T(==)>(s: seq<T>, x: T): (r: nat)
    requires x in s
    ensures r < |s| && s[r] == x
    ensures forall k :: 0 <= k < r ==> s[k] != x
  {
    if s[0] == x then 0 else FirstIndex(s[1..], x) + 1
  }

  /** Appending an element does not move the first occurrence of anything already there. */
  lemma FirstIndexPrefix<T>(p: seq<T>, c: T, x: T)
    requires x in p
    ensures FirstIndex(p + [c], x) == FirstIndex(p, x)
  {
    var s := p + [c];
    var k := FirstIndex(p, x);
    assert s[k] == x;
    assert forall y :: 0 <= y < k ==> s[y] == p[y];
    FirstIndexIs(s, x, k);
  }

  /** The first occurrence is the one with no earlier occurrence. */
  lemma FirstIndexIs<T>(s: seq<T>, x: T, k: nat)
    requires k < |s| && s[k] == x
    requires forall y :: 0 <= y < k ==> s[y] != x
    ensures FirstIndex(s, x) == k
  {
  }

  /** The values left by `Unique` appear in the order of their first occurrence in `s`. */
  lemma {:induction false} UniqueFirstAppearanceOrder<T>(s: seq<T>)
    ensures forall i, j :: 0 <= i < j < |Unique(s)| ==>
      FirstIndex(s, Unique(s)[i]) < FirstIndex(s, Unique(s)[j])
  {
    if s != [] {
      var p := s[..|s| - 1];
      var c := s[|s| - 1];
      assert s == p + [c];
      var u := Unique(p);
      UniqueFirstAppearanceOrder(p);
      forall x | x in p ensures FirstIndex(s, x) == FirstIndex(p, x) {
        FirstIndexPrefix(p, c, x);
      }
      if c !in u {
        assert c !in p;
        FirstIndexIs(s, c, |p|);
        assert Unique(s) == u + [c];
        forall i, j | 0 <= i < j < |Unique(s)|
          ensures FirstIndex(s, Unique(s)[i]) < FirstIndex(s, Unique(s)[j])
        {
          assert u[i] in p;
          if j < |u| {
            assert u[j] in p;
          }
        }
      } else {
        forall i, j | 0 <= i < j < |Unique(s)|
          ensures FirstIndex(s, Unique(s)[i]) < FirstIndex(s, Unique(s)[j])
        {
          assert u[i] in p && u[j] in p;
        }
      }
    }
  }

  /** `pd.unique(df[['HomeTeam', 'AwayTeam']].values.ravel())`. */
  function UniqueTeams(rows: seq<Fixture>): seq<string>
  {
    Unique(Ravel(rows))
  }

  /** A team is on the list exactly when some fixture has it at home or away. */
  predicate PlaysIn(rows: seq<Fixture>, t: string)
  {
    exists i :: 0 <= i < |rows| && (rows[i].homeTeam == t || rows[i].awayTeam == t)
  }

  /** `Unique` keeps exactly the values of `s`. */
  lemma UniqueMembers<T>(s: seq<T>, x: T)
    ensures x in Unique(s) <==> x in s
  {
    if x in s {
      var k :| 0 <= k < |s| && s[k] == x;
    }
  }

  /** A team occurs in the row-major reading exactly when some fixture has it. */
  lemma RavelMembers(rows: seq<Fixture>, t: string)
    ensures t in Ravel(rows) <==> PlaysIn(rows, t)
  {
    var r := Ravel(rows);
    if t in r {
      var k :| 0 <= k < |r| && r[k] == t;
      var i := k / 2;
      if k % 2 == 0 {
        assert k == 2 * i;
      } else {
        assert k == 2 * i + 1;
      }
    }
    if PlaysIn(rows, t) {
      var i :| 0 <= i < |rows| && (rows[i].homeTeam == t || rows[i].awayTeam == t);
      assert r[2 * i] == rows[i].homeTeam && r[2 * i + 1] == rows[i].awayTeam;
    }
  }

  /**
   * The team list holds each team of the fixtures once, nothing else, at most
   * two per fixture, in the order of first mention in the row-major reading.
   */
  lemma UniqueTeamsSpec(rows: seq<Fixture>)
    ensures |UniqueTeams(rows)| <= 2 * |rows|
    ensures Distinct(UniqueTeams(rows))
    ensures forall t :: t in UniqueTeams(rows) <==> PlaysIn(rows, t)
    ensures forall i, j :: 0 <= i < j < |UniqueTeams(rows)| ==>
      FirstIndex(Ravel(rows), UniqueTeams(rows)[i]) < FirstIndex(Ravel(rows), UniqueTeams(rows)[j])
  {
    var r := Ravel(rows);
    forall t ensures t in UniqueTeams(rows) <==> PlaysIn(rows, t) {
      UniqueMembers(r, t);
      RavelMembers(rows, t);
    }
    UniqueFirstAppearanceOrder(r);
  }
}
