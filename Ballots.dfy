/**
 * Classification of one ballot (main.py, verify_vote lines 239-255, without
 * its effects): invalid, wrong school, duplicate or valid, checked in that
 * order, and the split of a valid ballot's nominee text into candidates.
 */
module Ballots {
  import opened Wrappers
  import opened Schools

  /** The separator between candidate names in a nominee field. */
  const Separator: string := ", "

  /** No occurrence of ", " inside `p`. */
  predicate FreeOfSeparator(p: string)
  {
    forall i :: 0 <= i < |p| - 1 ==> !(p[i] == ',' && p[i + 1] == ' ')
  }

  /**
   * str.split(", "): scan left to right, cutting at every occurrence of the
   * separator; the empty text gives one empty piece.
   */
  function Split(s: string): (r: seq<string>)
    ensures |r| >= 1
    ensures r[0] <= s
    decreases |s|
  {
    if |s| < 2 then [s]
    else if s[..2] == Separator then [""] + Split(s[2..])
    else
      var rest := Split(s[1..]);
      [[s[0]] + rest[0]] + rest[1..]
  }

  /** ", ".join(pieces). */
  function Join(pieces: seq<string>): string
    requires |pieces| >= 1
    decreases |pieces|
  {
    if |pieces| == 1 then pieces[0] else pieces[0] + Separator + Join(pieces[1..])
  }

  /** Joining the pieces back gives the original text. */
  lemma {:induction false} JoinSplit(s: string)
    ensures Join(Split(s)) == s
    decreases |s|
  {
    if |s| < 2 {
    } else if s[..2] == Separator {
      JoinSplit(s[2..]);
      JoinEmptyHead(Split(s[2..]));
      assert s == Separator + s[2..];
    } else {
      JoinSplit(s[1..]);
      JoinGrowHead(s[0], Split(s[1..]));
      assert s == [s[0]] + s[1..];
    }
  }

  lemma {:induction false} JoinEmptyHead(pieces: seq<string>)
    requires |pieces| >= 1
    ensures Join([""] + pieces) == Separator + Join(pieces)
  {
    assert ([""] + pieces)[1..] == pieces;
  }

  lemma {:induction false} JoinGrowHead(c: char, pieces: seq<string>)
    requires |pieces| >= 1
    ensures Join([[c] + pieces[0]] + pieces[1..]) == [c] + Join(pieces)
  {
    var q := [[c] + pieces[0]] + pieces[1..];
    if |pieces| > 1 {
      assert q[1..] == pieces[1..];
      assert Join(q) == ([c] + pieces[0]) + Separator + Join(pieces[1..]);
    }
  }

  /** No piece of the split contains the separator. */
  lemma {:induction false} SplitPiecesFree(s: string)
    ensures forall i :: 0 <= i < |Split(s)| ==> FreeOfSeparator(Split(s)[i])
    decreases |s|
  {
    if |s| < 2 {
    } else if s[..2] == Separator {
      SplitPiecesFree(s[2..]);
      var rest := Split(s[2..]);
      assert Split(s) == [""] + rest;
      forall i | 0 <= i < |Split(s)| ensures FreeOfSeparator(Split(s)[i]) {
        if i > 0 { assert Split(s)[i] == rest[i - 1]; }
      }
    } else {
      SplitPiecesFree(s[1..]);
      var rest := Split(s[1..]);
      var head := [s[0]] + rest[0];
      assert Split(s) == [head] + rest[1..];
      assert FreeOfSeparator(rest[0]);
      if |rest[0]| > 0 {
        assert rest[0][0] == s[1];
        assert !(s[0] == ',' && s[1] == ' ') by { assert s[..2] == [s[0], s[1]]; }
      }
      assert FreeOfSeparator(head) by {
        forall i | 0 <= i < |head| - 1 ensures !(head[i] == ',' && head[i + 1] == ' ') {
          if i > 0 { assert head[i] == rest[0][i - 1] && head[i + 1] == rest[0][i]; }
        }
      }
      forall i | 0 <= i < |Split(s)| ensures FreeOfSeparator(Split(s)[i]) {
        if i > 0 { assert Split(s)[i] == rest[i]; }
      }
    }
  }

  /** How verify_vote sorts a ballot. */
  datatype Outcome = Invalid | WrongSchool | Duplicate | Valid(candidates: seq<string>)

  /** Whether any of the four nominee fields holds a string. */
  predicate HasNominees(b: Ballot)
  {
    b.ses.Some? || b.sob.Some? || b.sse.Some? || b.hass.Some?
  }

  /**
   * The decision verify_vote takes for ballot `b` in the election of
   * `school`, given the CWIDs whose votes were already accepted.
   */
  function Classify(b: Ballot, roster: Roster, dir: Directory, school: string, seen: set<string>): (r: Outcome)
    ensures r.Invalid? <==> !HasNominees(b)
    ensures r.WrongSchool? <==>
      HasNominees(b) &&
      (GetNomineesSchool(b).0 != Some(school) || SchoolByCwid(b.cwid, roster, dir) != Some(school))
    ensures r.Duplicate? <==>
      HasNominees(b) && GetNomineesSchool(b).0 == Some(school) &&
      SchoolByCwid(b.cwid, roster, dir) == Some(school) && b.cwid in seen
    ensures r.Valid? ==>
      b.cwid !in seen && GetNomineesSchool(b).0 == Some(school) &&
      SchoolByCwid(b.cwid, roster, dir) == Some(school) &&
      |r.candidates| >= 1 && Join(r.candidates) == GetNomineesSchool(b).1.value &&
      forall i :: 0 <= i < |r.candidates| ==> FreeOfSeparator(r.candidates[i])
  {
    var voterSchool := SchoolByCwid(b.cwid, roster, dir);
    var (nomineeSchool, candidateList) := GetNomineesSchool(b);
    if candidateList.None? || nomineeSchool.None? then Invalid
    else if nomineeSchool.value != school || voterSchool != Some(school) then WrongSchool
    else if b.cwid in seen then Duplicate
    else
      JoinSplit(candidateList.value);
      SplitPiecesFree(candidateList.value);
      Valid(Split(candidateList.value))
  }
}
