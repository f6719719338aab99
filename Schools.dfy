/**
 * Resolution of schools: which school a major belongs to, which school a
 * student belongs to through the roster, and which school's nominee field a
 * ballot filled in (main.py, school_by_major, school_by_cwid and
 * get_nominees_school).
 */
module Schools {
  import opened Wrappers

  /** The four school codes, in the order the nominee fields are scanned. */
  const SES: string := "ses"
  const SOB: string := "sob"
  const SSE: string := "sse"
  const HASS: string := "hass"

  /** The school -> majors directory, in its enumeration order. */
  type Directory = seq<(string, set<string>)>

  /** The roster of eligible students as (cwid, major) rows, in file order. */
  type Roster = seq<(string, string)>

  /**
   * One survey response: the voter's CWID and the four nominee fields
   * (the base column and its ".1", ".2", ".3" variants). A field holds
   * Some(text) when the cell is a string and None when it is blank.
   */
  datatype Ballot = Ballot(
    cwid: string,
    ses: Option<string>,
    sob: Option<string>,
    sse: Option<string>,
    hass: Option<string>)

  function LowerChar(ch: char): char
  {
    if 'A' <= ch <= 'Z' then (ch as int + ('a' as int - 'A' as int)) as char else ch
  }

  /** str.lower(), for the ASCII letters. */
  function Lower(s: string): (r: string)
    ensures |r| == |s|
    ensures forall i :: 0 <= i < |s| ==> r[i] == LowerChar(s[i])
  {
    seq(|s|, i requires 0 <= i < |s| => LowerChar(s[i]))
  }

  lemma LowerIdempotent(s: string)
    ensures Lower(Lower(s)) == Lower(s)
  {
  }

  /**
   * The first school, in directory order, whose majors contain `major`;
   * None when no school lists it.
   */
  function FindSchool(major: string, dir: Directory): (r: Option<string>)
    ensures r.None? <==> forall i :: 0 <= i < |dir| ==> major !in dir[i].1
    ensures r.Some? ==>
      exists i :: 0 <= i < |dir| && dir[i].0 == r.value && major in dir[i].1 &&
        forall j :: 0 <= j < i ==> major !in dir[j].1
  {
    if dir == [] then None
    else if major in dir[0].1 then Some(dir[0].0)
    else
      var r := FindSchool(major, dir[1..]);
      assert forall i :: 1 <= i < |dir| ==> dir[i] == dir[1..][i - 1];
      r
  }

  /** school_by_major: None for no major, else the lower-cased major's school. */
  function SchoolByMajor(major: Option<string>, dir: Directory): (r: Option<string>)
    ensures major.None? ==> r.None?
    ensures major.Some? ==>
      (r.None? <==> forall i :: 0 <= i < |dir| ==> Lower(major.value) !in dir[i].1)
    ensures major.Some? && r.Some? ==>
      exists i :: 0 <= i < |dir| && dir[i].0 == r.value && Lower(major.value) in dir[i].1 &&
        forall j :: 0 <= j < i ==> Lower(major.value) !in dir[j].1
  {
    if major.None? then None else FindSchool(Lower(major.value), dir)
  }

  /** Two spellings of a major that differ only in case resolve alike. */
  lemma SchoolByMajorIgnoresCase(a: string, b: string, dir: Directory)
    requires Lower(a) == Lower(b)
    ensures SchoolByMajor(Some(a), dir) == SchoolByMajor(Some(b), dir)
  {
  }

  /** The major of the first roster row whose CWID matches. */
  function MajorOf(cwid: string, roster: Roster): (r: Option<string>)
    ensures r.None? <==> forall i :: 0 <= i < |roster| ==> roster[i].0 != cwid
    ensures r.Some? ==>
      exists i :: 0 <= i < |roster| && roster[i] == (cwid, r.value) &&
        forall j :: 0 <= j < i ==> roster[j].0 != cwid
  {
    if roster == [] then None
    else if roster[0].0 == cwid then Some(roster[0].1)
    else
      var r := MajorOf(cwid, roster[1..]);
      assert forall i :: 1 <= i < |roster| ==> roster[i] == roster[1..][i - 1];
      r
  }

  /**
   * school_by_cwid: the major of the first matching row is lower-cased and
   * then resolved through school_by_major, which lower-cases it again.
   */
  function SchoolByCwid(cwid: string, roster: Roster, dir: Directory): (r: Option<string>)
    ensures MajorOf(cwid, roster).None? ==> r.None?
    ensures r == SchoolByMajor(MajorOf(cwid, roster), dir)
  {
    var major := MajorOf(cwid, roster);
    var lowered := if major.Some? then Some(Lower(major.value)) else None;
    LowerIdempotentResolve(major, dir);
    SchoolByMajor(lowered, dir)
  }

  lemma LowerIdempotentResolve(major: Option<string>, dir: Directory)
    ensures SchoolByMajor(if major.Some? then Some(Lower(major.value)) else None, dir)
         == SchoolByMajor(major, dir)
  {
    if major.Some? {
      LowerIdempotent(major.value);
    }
  }

  /** The nominee fields of a ballot, paired with their schools, in scan order. */
  function NomineeFields(b: Ballot): seq<(string, Option<string>)>
  {
    [(SES, b.ses), (SOB, b.sob), (SSE, b.sse), (HASS, b.hass)]
  }

  /**
   * The school and text of the first field holding a string, or
   * (None, None) when none does.
   */
  function FirstFilled(fields: seq<(string, Option<string>)>): (r: (Option<string>, Option<string>))
    ensures r.0.Some? <==> r.1.Some?
    ensures r.0.None? <==> forall i :: 0 <= i < |fields| ==> fields[i].1.None?
    ensures r.0.Some? ==>
      exists i :: 0 <= i < |fields| && fields[i] == (r.0.value, r.1) &&
        forall j :: 0 <= j < i ==> fields[j].1.None?
  {
    if fields == [] then (None, None)
    else if fields[0].1.Some? then (Some(fields[0].0), fields[0].1)
    else
      var r := FirstFilled(fields[1..]);
      assert forall i :: 1 <= i < |fields| ==> fields[i] == fields[1..][i - 1];
      r
  }

  /** get_nominees_school: scan ses, sob, sse, hass; the first string decides. */
  function GetNomineesSchool(b: Ballot): (r: (Option<string>, Option<string>))
    ensures r.0.Some? <==> r.1.Some?
    ensures r == if b.ses.Some? then (Some(SES), b.ses)
                 else if b.sob.Some? then (Some(SOB), b.sob)
                 else if b.sse.Some? then (Some(SSE), b.sse)
                 else if b.hass.Some? then (Some(HASS), b.hass)
                 else (None, None)
  {
    var fields := NomineeFields(b);
    var r := FirstFilled(fields);
    assert fields[0] == (SES, b.ses) && fields[1] == (SOB, b.sob);
    assert fields[2] == (SSE, b.sse) && fields[3] == (HASS, b.hass);
    r
  }
}
