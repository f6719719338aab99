/**
 * The tally of an election run (main.py, initialize_setups, add_votes,
 * verify_vote and iterate_votes): the candidate -> count dictionary with its
 * insertion order, the four counters of the voting record, the set of CWIDs
 * whose vote was accepted and the audit log of rejected ballots.
 *
 * The functions below give the state after each step; the class Election
 * performs the same steps in place and is proved to reach those states.
 */
module Tally {
  import opened Wrappers
  import opened Schools
  import opened Ballots

  /** The voting record: the four counters. */
  datatype Record = Record(valid: nat, invalid: nat, wrongSchool: nat, duplicate: nat)

  /** An entry of the audit log: the ballot that was rejected and why. */
  datatype Rejection = InvalidVote(ballot: Ballot) | DuplicateVote(ballot: Ballot)

  /**
   * The whole tally. `votes` is the candidate dictionary and `order` its keys
   * in insertion order (the order the later stable sort keeps for equal
   * counts).
   */
  datatype State = State(
    order: seq<string>,
    votes: map<string, nat>,
    record: Record,
    voters: set<string>,
    log: seq<Rejection>)

  predicate Distinct(xs: seq<string>)
  {
    forall i, j :: 0 <= i < j < |xs| ==> xs[i] != xs[j]
  }

  /** The number of votes of `c`, 0 for a candidate not in the dictionary. */
  function Get(votes: map<string, nat>, c: string): nat
  {
    if c in votes then votes[c] else 0
  }

  /** The sum of the counts of the candidates in `order`. */
  function Total(order: seq<string>, votes: map<string, nat>): nat
  {
    if order == [] then 0
    else Total(order[..|order| - 1], votes) + Get(votes, order[|order| - 1])
  }

  /**
   * What every reachable tally satisfies: the keys are exactly the listed
   * candidates, each listed once with at least one vote, and the valid
   * counter is the sum of all counts.
   */
  ghost predicate Consistent(s: State)
  {
    && Distinct(s.order)
    && (forall c :: c in s.votes <==> c in s.order)
    && (forall c :: c in s.votes ==> s.votes[c] >= 1)
    && s.record.valid == Total(s.order, s.votes)
  }

  /** initialize_setups: an empty dictionary, zero counters, no voters. */
  function InitializeSetups(): (s: State)
    ensures Consistent(s)
    ensures s.record == Record(0, 0, 0, 0) && s.voters == {} && s.log == []
    ensures forall c :: Get(s.votes, c) == 0
  {
    State([], map[], Record(0, 0, 0, 0), {}, [])
  }

  /** One pass of add_votes' loop: one more vote for `c`. */
  function TallyOne(s: State, c: string): State
  {
    s.(record := s.record.(valid := s.record.valid + 1),
       votes := s.votes[c := Get(s.votes, c) + 1],
       order := if c in s.votes then s.order else s.order + [c])
  }

  /** add_votes: the tally after counting `names` in order. */
  function Tallied(s: State, names: seq<string>): State
    decreases |names|
  {
    if names == [] then s
    else TallyOne(Tallied(s, names[..|names| - 1]), names[|names| - 1])
  }

  /** verify_vote: the tally after ballot `b`. */
  function AfterBallot(s: State, b: Ballot, roster: Roster, dir: Directory, school: string): State
  {
    match Classify(b, roster, dir, school, s.voters)
    case Invalid =>
      s.(record := s.record.(invalid := s.record.invalid + 1), log := s.log + [InvalidVote(b)])
    case WrongSchool =>
      s.(record := s.record.(wrongSchool := s.record.wrongSchool + 1))
    case Duplicate =>
      s.(record := s.record.(duplicate := s.record.duplicate + 1), log := s.log + [DuplicateVote(b)])
    case Valid(candidates) =>
      Tallied(s.(voters := s.voters + {b.cwid}), candidates)
  }

  /** iterate_votes: the tally after the ballots `bs`, in order. */
  function AfterBallots(s: State, bs: seq<Ballot>, roster: Roster, dir: Directory, school: string): State
    decreases |bs|
  {
    if bs == [] then s
    else AfterBallot(AfterBallots(s, bs[..|bs| - 1], roster, dir, school), bs[|bs| - 1], roster, dir, school)
  }

  /** The number of ballots a tally has seen, when every accepted one added a voter. */
  function Processed(s: State): nat
  {
    s.record.invalid + s.record.wrongSchool + s.record.duplicate + |s.voters|
  }

  // ---------------------------------------------------------------- add_votes

  /**
   * add_votes raises "valid" by the number of names, raises each
   * candidate's count by the number of times it is named (so a new one
   * enters at 1 per mention) and changes nothing else.
   */
  lemma {:induction false} TalliedCounts(s: State, names: seq<string>)
    ensures Tallied(s, names).record == s.record.(valid := s.record.valid + |names|)
    ensures Tallied(s, names).voters == s.voters && Tallied(s, names).log == s.log
    ensures forall c :: Get(Tallied(s, names).votes, c) == Get(s.votes, c) + multiset(names)[c]
    ensures forall c :: c in Tallied(s, names).votes <==> c in s.votes || c in names
    ensures s.order <= Tallied(s, names).order
    decreases |names|
  {
    if names != [] {
      var init, last := names[..|names| - 1], names[|names| - 1];
      TalliedCounts(s, init);
      assert names == init + [last];
      assert multiset(names) == multiset(init) + multiset{last};
    }
  }

  lemma {:induction false} TotalUnaffected(order: seq<string>, votes: map<string, nat>, c: string, v: nat)
    requires c !in order
    ensures Total(order, votes[c := v]) == Total(order, votes)
  {
    if order != [] {
      TotalUnaffected(order[..|order| - 1], votes, c, v);
    }
  }

  lemma {:induction false} TotalBump(order: seq<string>, votes: map<string, nat>, c: string)
    requires Distinct(order) && c in order
    ensures Total(order, votes[c := Get(votes, c) + 1]) == Total(order, votes) + 1
  {
    var init, last := order[..|order| - 1], order[|order| - 1];
    if last == c {
      assert c !in init;
      TotalUnaffected(init, votes, c, Get(votes, c) + 1);
    } else {
      assert c in init by {
        var i :| 0 <= i < |order| && order[i] == c;
        assert init[i] == c;
      }
      TotalBump(init, votes, c);
    }
  }

  lemma TallyKnownConsistent(s: State, c: string)
    requires Consistent(s) && c in s.votes
    ensures Consistent(TallyOne(s, c))
  {
    var t := TallyOne(s, c);
    assert t.order == s.order && t.votes == s.votes[c := s.votes[c] + 1];
    assert forall x :: x in t.votes <==> x in s.votes;
    TotalBump(s.order, s.votes, c);
  }

  lemma TallyNewConsistent(s: State, c: string)
    requires Consistent(s) && c !in s.votes
    ensures Consistent(TallyOne(s, c))
  {
    var t := TallyOne(s, c);
    assert c !in s.order;
    assert t.order == s.order + [c] && t.votes == s.votes[c := 1];
    assert Distinct(t.order) by {
      forall i, j | 0 <= i < j < |t.order| ensures t.order[i] != t.order[j] {
        if j == |s.order| { assert t.order[i] == s.order[i]; }
      }
    }
    assert forall x :: x in t.votes <==> x in t.order by {
      forall x ensures x in t.votes <==> x in t.order {
        assert x in t.order <==> x in s.order || x == c;
      }
    }
    TotalUnaffected(s.order, s.votes, c, 1);
    assert t.order[..|t.order| - 1] == s.order;
  }

  /** Counting names keeps a tally consistent: valid stays the sum of all counts. */
  lemma {:induction false} TalliedConsistent(s: State, names: seq<string>)
    requires Consistent(s)
    ensures Consistent(Tallied(s, names))
    decreases |names|
  {
    if names != [] {
      TalliedConsistent(s, names[..|names| - 1]);
      var m, c := Tallied(s, names[..|names| - 1]), names[|names| - 1];
      if c in m.votes {
        TallyKnownConsistent(m, c);
      } else {
        TallyNewConsistent(m, c);
      }
    }
  }

  // ------------------------------------------------------------- verify_vote

  /**
   * A rejected ballot raises exactly one counter by one and leaves the
   * dictionary and the voters alone; an accepted one adds its CWID, which
   * was not there before, and tallies its candidates.
   */
  lemma BallotEffect(s: State, b: Ballot, roster: Roster, dir: Directory, school: string)
    ensures
      var o := Classify(b, roster, dir, school, s.voters);
      var t := AfterBallot(s, b, roster, dir, school);
      && (!o.Valid? ==> t.order == s.order && t.votes == s.votes && t.voters == s.voters)
      && (o.Invalid? ==> t.record == s.record.(invalid := s.record.invalid + 1))
      && (o.WrongSchool? ==> t.record == s.record.(wrongSchool := s.record.wrongSchool + 1))
      && (o.Duplicate? ==> t.record == s.record.(duplicate := s.record.duplicate + 1))
      && (o.Valid? ==>
            && b.cwid !in s.voters
            && t.voters == s.voters + {b.cwid}
            && t.record == s.record.(valid := s.record.valid + |o.candidates|)
            && forall c :: Get(t.votes, c) == Get(s.votes, c) + multiset(o.candidates)[c])
  {
    var o := Classify(b, roster, dir, school, s.voters);
    if o.Valid? {
      TalliedCounts(s.(voters := s.voters + {b.cwid}), o.candidates);
    }
  }

  /** Only invalid and duplicate ballots are written to the audit log. */
  lemma BallotLogged(s: State, b: Ballot, roster: Roster, dir: Directory, school: string)
    ensures
      var o := Classify(b, roster, dir, school, s.voters);
      var t := AfterBallot(s, b, roster, dir, school);
      && (o.Invalid? ==> t.log == s.log + [InvalidVote(b)])
      && (o.Duplicate? ==> t.log == s.log + [DuplicateVote(b)])
      && (o.WrongSchool? || o.Valid? ==> t.log == s.log)
  {
    var o := Classify(b, roster, dir, school, s.voters);
    if o.Valid? {
      TalliedCounts(s.(voters := s.voters + {b.cwid}), o.candidates);
    }
  }

  /**
   * A CWID whose vote was accepted can never be accepted again: an
   * otherwise eligible later ballot from it is a duplicate.
   */
  lemma {:induction false} RepeatVoterIsDuplicate(
    s: State, bs: seq<Ballot>, b: Ballot, roster: Roster, dir: Directory, school: string)
    requires b.cwid in s.voters
    requires HasNominees(b) && GetNomineesSchool(b).0 == Some(school)
    requires SchoolByCwid(b.cwid, roster, dir) == Some(school)
    ensures Classify(b, roster, dir, school, AfterBallots(s, bs, roster, dir, school).voters) == Duplicate
  {
    AfterBallotsGrow(s, bs, roster, dir, school);
  }

  // ----------------------------------------------------------- iterate_votes

  /**
   * Over a run: every ballot is counted once (as invalid, wrong school,
   * duplicate or one new voter), the voters only grow, the log holds one
   * entry per invalid or duplicate ballot, and consistency is kept.
   */
  lemma {:induction false} AfterBallotsGrow(
    s: State, bs: seq<Ballot>, roster: Roster, dir: Directory, school: string)
    ensures Processed(AfterBallots(s, bs, roster, dir, school)) == Processed(s) + |bs|
    ensures s.voters <= AfterBallots(s, bs, roster, dir, school).voters
    ensures var t := AfterBallots(s, bs, roster, dir, school);
      |t.log| - t.record.invalid - t.record.duplicate == |s.log| - s.record.invalid - s.record.duplicate
    ensures Consistent(s) ==> Consistent(AfterBallots(s, bs, roster, dir, school))
    decreases |bs|
  {
    if bs != [] {
      var m := AfterBallots(s, bs[..|bs| - 1], roster, dir, school);
      var b := bs[|bs| - 1];
      AfterBallotsGrow(s, bs[..|bs| - 1], roster, dir, school);
      BallotEffect(m, b, roster, dir, school);
      BallotLogged(m, b, roster, dir, school);
      var o := Classify(b, roster, dir, school, m.voters);
      if o.Valid? {
        assert |m.voters + {b.cwid}| == |m.voters| + 1;
        if Consistent(m) {
          TalliedConsistent(m.(voters := m.voters + {b.cwid}), o.candidates);
        }
      }
    }
  }

  /**
   * A whole run from initialize_setups: the counters and the voters account
   * for every ballot, "valid" is the sum of the candidates' counts, and the
   * log holds exactly the invalid and duplicate ballots.
   */
  lemma RunFromStart(bs: seq<Ballot>, roster: Roster, dir: Directory, school: string)
    ensures var t := AfterBallots(InitializeSetups(), bs, roster, dir, school);
      && t.record.invalid + t.record.wrongSchool + t.record.duplicate + |t.voters| == |bs|
      && t.record.valid == Total(t.order, t.votes)
      && |t.log| == t.record.invalid + t.record.duplicate
  {
    AfterBallotsGrow(InitializeSetups(), bs, roster, dir, school);
  }

  lemma SplitTwoNames()
    ensures Split("A, B") == ["A", "B"]
  {
    assert ", B"[..2] == Separator && ", B"[2..] == "B";
    assert Split(", B") == ["", "B"];
    assert "A, B"[..2] != Separator && "A, B"[1..] == ", B";
    assert ['A'] + "" == "A";
  }

  /**
   * "valid" counts candidates named, not ballots: one accepted ballot for
   * "A, B" gives valid == 2 with a single voter.
   */
  lemma ValidCountsSelections()
    ensures
      var b := Ballot("10001", Some("A, B"), None, None, None);
      var t := AfterBallot(InitializeSetups(), b, [("10001", "Economics")], [(SES, {"economics"})], SES);
      && t.record == Record(2, 0, 0, 0)
      && t.voters == {"10001"}
      && Get(t.votes, "A") == 1 && Get(t.votes, "B") == 1
  {
    var b := Ballot("10001", Some("A, B"), None, None, None);
    var roster: Roster := [("10001", "Economics")];
    var dir: Directory := [(SES, {"economics"})];
    assert MajorOf("10001", roster) == Some("Economics");
    assert Lower("Economics") == "economics";
    assert SchoolByCwid("10001", roster, dir) == Some(SES);
    SplitTwoNames();
    assert Classify(b, roster, dir, SES, {}) == Valid(["A", "B"]);
    BallotEffect(InitializeSetups(), b, roster, dir, SES);
    assert multiset(["A", "B"])["A"] == 1;
    assert multiset(["A", "B"])["B"] == 1;
  }

  /**
   * The tally, updated in place as main.py does: `votes`, `votingRecord`
   * and `voterCwids` are the three objects initialize_setups creates, and
   * `log` stands for the audit log file.
   */
  class Election {
    var order: seq<string>
    var votes: map<string, nat>
    var votingRecord: Record
    var voterCwids: set<string>
    var log: seq<Rejection>

    function Snapshot(): State
      reads this
    {
      State(order, votes, votingRecord, voterCwids, log)
    }

    /** initialize_setups. */
    constructor ()
      ensures Snapshot() == InitializeSetups()
      ensures Consistent(Snapshot())
    {
      order, votes := [], map[];
      votingRecord := Record(0, 0, 0, 0);
      voterCwids, log := {}, [];
    }

    /** add_votes: one vote per name in `candidateList`. */
    method AddVotes(candidateList: seq<string>)
      modifies this
      ensures Snapshot() == Tallied(old(Snapshot()), candidateList)
      ensures votingRecord == old(votingRecord).(valid := old(votingRecord.valid) + |candidateList|)
      ensures forall c :: Get(votes, c) == Get(old(votes), c) + multiset(candidateList)[c]
      ensures voterCwids == old(voterCwids) && log == old(log)
      ensures Consistent(old(Snapshot())) ==> Consistent(Snapshot())
    {
      ghost var start := Snapshot();
      var i := 0;
      while i < |candidateList|
        invariant 0 <= i <= |candidateList|
        invariant Snapshot() == Tallied(start, candidateList[..i])
      {
        var candidate := candidateList[i];
        votingRecord := votingRecord.(valid := votingRecord.valid + 1);
        if candidate !in votes {
          votes := votes[candidate := 1];
          order := order + [candidate];
        } else {
          votes := votes[candidate := votes[candidate] + 1];
        }
        assert candidateList[..i + 1][..i] == candidateList[..i];
        i := i + 1;
      }
      assert candidateList[..i] == candidateList;
      TalliedCounts(start, candidateList);
      if Consistent(start) {
        TalliedConsistent(start, candidateList);
      }
    }

    /** verify_vote: classify ballot `b` and record it. */
    method VerifyVote(b: Ballot, roster: Roster, dir: Directory, school: string)
      modifies this
      ensures Snapshot() == AfterBallot(old(Snapshot()), b, roster, dir, school)
    {
      var voterSchool := SchoolByCwid(b.cwid, roster, dir);
      var (nomineeSchool, candidateList) := GetNomineesSchool(b);
      if candidateList.None? || nomineeSchool.None? {
        log := log + [InvalidVote(b)];
        votingRecord := votingRecord.(invalid := votingRecord.invalid + 1);
      } else if nomineeSchool.value != school || voterSchool != Some(school) {
        votingRecord := votingRecord.(wrongSchool := votingRecord.wrongSchool + 1);
      } else if b.cwid in voterCwids {
        log := log + [DuplicateVote(b)];
        votingRecord := votingRecord.(duplicate := votingRecord.duplicate + 1);
      } else {
        voterCwids := voterCwids + {b.cwid};
        AddVotes(Split(candidateList.value));
      }
    }

    /** iterate_votes: every ballot in order. */
    method IterateVotes(ballots: seq<Ballot>, roster: Roster, dir: Directory, school: string)
      modifies this
      ensures Snapshot() == AfterBallots(old(Snapshot()), ballots, roster, dir, school)
      ensures Processed(Snapshot()) == Processed(old(Snapshot())) + |ballots|
      ensures old(voterCwids) <= voterCwids
      ensures Consistent(old(Snapshot())) ==> Consistent(Snapshot())
    {
      ghost var start := Snapshot();
      var i := 0;
      while i < |ballots|
        invariant 0 <= i <= |ballots|
        invariant Snapshot() == AfterBallots(start, ballots[..i], roster, dir, school)
      {
        VerifyVote(ballots[i], roster, dir, school);
        assert ballots[..i + 1][..i] == ballots[..i];
        i := i + 1;
      }
      assert ballots[..i] == ballots;
      AfterBallotsGrow(start, ballots, roster, dir, school);
    }
  }
}
