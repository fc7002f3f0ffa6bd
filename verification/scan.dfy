/** The scan the program's search and delete actions share: departments in
    order, then each roster in order, testing whether a normalised needle
    occurs in a name's lower-case form. A roster's names across all
    departments form a grid: one row per department. */
module Scan {
  import opened Wrappers
  import opened Text

  /** A record's position: department index, then index within the roster. */
  datatype Coord = Coord(dept: nat, index: nat)

  /** Scan order: earlier department first, then earlier roster position. */
  predicate Before(a: Coord, b: Coord) {
    a.dept < b.dept || (a.dept == b.dept && a.index < b.index)
  }

  /** Python's `.strip().lower()` applied to typed input: no longer than the
      input, with no upper-case letter, and empty exactly when the input is
      all whitespace. */
  function Normalize(raw: string): (r: string)
    ensures |r| <= |raw|
    ensures forall k :: 0 <= k < |r| ==> !('A' <= r[k] <= 'Z')
    ensures r == [] <==> forall k :: 0 <= k < |raw| ==> IsSpace(raw[k])
  {
    StripEmptyIffBlank(raw);
    StripNoLonger(raw);
    LowerIdempotent(Strip(raw));
    Lower(Strip(raw))
  }

  /** Python's `needle in name.lower()`. The empty needle matches every name
      and no needle longer than the name matches it. */
  function NameMatches(needle: string, name: string): (b: bool)
    ensures needle == [] ==> b
    ensures b ==> |needle| <= |name|
  {
    assert OccursAt([], Lower(name), 0);
    Contains(Lower(name), needle)
  }

  /** A needle holding an upper-case letter matches no name, which is why the
      query is lowered first. */
  lemma UpperNeedleNeverMatches(needle: string, name: string, k: int)
    requires 0 <= k < |needle| && 'A' <= needle[k] <= 'Z'
    ensures !NameMatches(needle, name)
  {
    UpperNeverOccurs(needle, Lower(name), k);
  }

  /** A needle with an upper-case letter occurs nowhere in a lowered string. */
  lemma UpperNeverOccurs(needle: string, hay: string, k: int)
    requires forall j :: 0 <= j < |hay| ==> !('A' <= hay[j] <= 'Z')
    requires 0 <= k < |needle| && 'A' <= needle[k] <= 'Z'
    ensures forall i :: !OccursAt(needle, hay, i)
  {
    forall i
      ensures !OccursAt(needle, hay, i)
    {
      if 0 <= i && i + |needle| <= |hay| {
        assert hay[i..i + |needle|][k] == hay[i + k];
      }
    }
  }

  predicate MatchAt(grid: seq<seq<string>>, needle: string, c: Coord) {
    c.dept < |grid| && c.index < |grid[c.dept]| && NameMatches(needle, grid[c.dept][c.index])
  }

  /** The matches in row `d` at positions `from` and later, in order. */
  function RowMatches(row: seq<string>, needle: string, d: nat, from: nat): (r: seq<Coord>)
    requires from <= |row|
    ensures forall k :: 0 <= k < |r| ==> r[k].dept == d && from <= r[k].index < |row| && NameMatches(needle, row[r[k].index])
    ensures forall i :: from <= i < |row| && NameMatches(needle, row[i]) ==> Coord(d, i) in r
    ensures forall k, l :: 0 <= k < l < |r| ==> r[k].index < r[l].index
    decreases |row| - from
  {
    if from == |row| then []
    else
      var rest := RowMatches(row, needle, d, from + 1);
      if NameMatches(needle, row[from]) then
        PrependMatch(row, needle, d, from, rest);
        [Coord(d, from)] + rest
      else rest
  }

  /** A match at `from` placed before the matches after it. */
  lemma PrependMatch(row: seq<string>, needle: string, d: nat, from: nat, rest: seq<Coord>)
    requires from < |row| && NameMatches(needle, row[from])
    requires forall k :: 0 <= k < |rest| ==> rest[k].dept == d && from + 1 <= rest[k].index < |row|
    requires forall k :: 0 <= k < |rest| ==> NameMatches(needle, row[rest[k].index])
    requires forall i :: from + 1 <= i < |row| && NameMatches(needle, row[i]) ==> Coord(d, i) in rest
    requires forall k, l :: 0 <= k < l < |rest| ==> rest[k].index < rest[l].index
    ensures var r := [Coord(d, from)] + rest;
            && (forall k :: 0 <= k < |r| ==> r[k].dept == d && from <= r[k].index < |row|)
            && (forall k :: 0 <= k < |r| ==> NameMatches(needle, row[r[k].index]))
            && (forall i :: from <= i < |row| && NameMatches(needle, row[i]) ==> Coord(d, i) in r)
            && (forall k, l :: 0 <= k < l < |r| ==> r[k].index < r[l].index)
  {
    var r := [Coord(d, from)] + rest;
    assert forall k :: 1 <= k < |r| ==> r[k] == rest[k - 1];
  }

  /** The matches in rows `from` and later, in scan order. */
  function GridMatches(grid: seq<seq<string>>, needle: string, from: nat): (r: seq<Coord>)
    requires from <= |grid|
    ensures forall k :: 0 <= k < |r| ==> from <= r[k].dept && MatchAt(grid, needle, r[k])
    ensures forall c: Coord :: from <= c.dept && MatchAt(grid, needle, c) ==> c in r
    ensures forall k, l :: 0 <= k < l < |r| ==> Before(r[k], r[l])
    decreases |grid| - from
  {
    if from == |grid| then []
    else
      var row := RowMatches(grid[from], needle, from, 0);
      var rest := GridMatches(grid, needle, from + 1);
      JoinRows(grid, needle, from, row, rest);
      row + rest
  }

  /** The matches of row `from` followed by those of the later rows are the
      matches of rows `from` and later, in scan order. */
  lemma JoinRows(grid: seq<seq<string>>, needle: string, from: nat, row: seq<Coord>, rest: seq<Coord>)
    requires from < |grid|
    requires forall k :: 0 <= k < |row| ==> row[k].dept == from && row[k].index < |grid[from]|
    requires forall k :: 0 <= k < |row| ==> NameMatches(needle, grid[from][row[k].index])
    requires forall i :: 0 <= i < |grid[from]| && NameMatches(needle, grid[from][i]) ==> Coord(from, i) in row
    requires forall k, l :: 0 <= k < l < |row| ==> row[k].index < row[l].index
    requires forall k :: 0 <= k < |rest| ==> from + 1 <= rest[k].dept && MatchAt(grid, needle, rest[k])
    requires forall c: Coord :: from + 1 <= c.dept && MatchAt(grid, needle, c) ==> c in rest
    requires forall k, l :: 0 <= k < l < |rest| ==> Before(rest[k], rest[l])
    ensures var r := row + rest;
            && (forall k :: 0 <= k < |r| ==> from <= r[k].dept && MatchAt(grid, needle, r[k]))
            && (forall c: Coord :: from <= c.dept && MatchAt(grid, needle, c) ==> c in r)
            && (forall k, l :: 0 <= k < l < |r| ==> Before(r[k], r[l]))
  {
    var r := row + rest;
    forall k | 0 <= k < |r|
      ensures from <= r[k].dept && MatchAt(grid, needle, r[k])
    {
      if k >= |row| {
        assert r[k] == rest[k - |row|];
      }
    }
    forall c: Coord | from <= c.dept && MatchAt(grid, needle, c)
      ensures c in r
    {
      if c.dept == from {
        assert Coord(from, c.index) in row;
      } else {
        assert c in rest;
      }
    }
    forall k, l | 0 <= k < l < |r|
      ensures Before(r[k], r[l])
    {
      if l < |row| {
      } else if k >= |row| {
        assert r[k] == rest[k - |row|] && r[l] == rest[l - |row|];
      } else {
        assert r[l] == rest[l - |row|];
      }
    }
  }

  /** Every match in the grid, each once, in scan order. */
  function FindAll(grid: seq<seq<string>>, needle: string): (r: seq<Coord>)
    ensures forall k :: 0 <= k < |r| ==> MatchAt(grid, needle, r[k])
    ensures forall c :: MatchAt(grid, needle, c) ==> c in r
    ensures forall k, l :: 0 <= k < l < |r| ==> Before(r[k], r[l])
  {
    GridMatches(grid, needle, 0)
  }

  /** The match a scan meets first, if any: no match comes before it. */
  function FindFirst(grid: seq<seq<string>>, needle: string): (r: Option<Coord>)
    ensures r.None? <==> forall c :: !MatchAt(grid, needle, c)
    ensures r.Some? ==> MatchAt(grid, needle, r.value)
    ensures r.Some? ==> forall c :: MatchAt(grid, needle, c) ==> c == r.value || Before(r.value, c)
  {
    var all := FindAll(grid, needle);
    if |all| == 0 then None
    else
      assert forall c :: MatchAt(grid, needle, c) ==> c == all[0] || Before(all[0], c) by {
        forall c | MatchAt(grid, needle, c)
          ensures c == all[0] || Before(all[0], c)
        {
          var k :| 0 <= k < |all| && all[k] == c;
          if k > 0 {
            assert Before(all[0], all[k]);
          }
        }
      }
      Some(all[0])
  }

  /** The case-insensitive substring test on two sample names. */
  lemma SubstringIgnoresCase()
    ensures NameMatches("an", "Anna") && NameMatches("an", "Juan")
  {
    assert Lower("Anna")[0..2] == "an";
    assert OccursAt("an", Lower("Anna"), 0);
    assert Lower("Juan")[2..4] == "an";
    assert OccursAt("an", Lower("Juan"), 2);
  }
}
