# SGA election verification: vote checking and seat allocation in Dafny

This project models the core of the school-senate election counter in
`main.py`. The counter reads a survey export of ballots and a student roster.
It checks each ballot against the roster and sorts it into one of four
outcomes: valid, invalid, wrong school or duplicate. It tallies the votes of
the valid ballots. It then sorts and groups the tally by count and fills the
seats from the highest count down. The first group that does not fit is
reported as tied.

Files and modules:

- `Wrappers.dfy`: `Option`, which stands for Python's `None`.
- `Schools.dfy`: school resolution (`school_by_major`, `school_by_cwid`,
  `get_nominees_school`). A ballot is a CWID plus four optional nominee
  fields. The roster is a sequence of (cwid, major) rows. The directory of
  majors is an ordered sequence of (school, set of majors) pairs and is a
  parameter.
- `Ballots.dfy`: the decision of `verify_vote` as a function `Classify`, and
  `str.split(", ")` as `Split` with its inverse `Join`.
- `Tally.dfy`: the tally state (the `votes` dictionary with its insertion
  order, the voting record, the voter CWIDs and an audit log). Functions give
  the state after `add_votes`, `verify_vote` and `iterate_votes`, with lemmas
  about them. The class `Election` holds the same state as mutable fields and
  has methods that update it in place, proved to reach those states.
- `Seats.dfy`: `sort_votes` as a stable insertion sort, `group_votes_by_num`
  as a loop building a map, and `determine_elected` as a loop with an early
  exit. The greedy fill is specified by the function `Allocate`.

Three behaviours of `main.py` that the model keeps:

- `determine_elected` keeps going after the seats are exactly filled. With
  tally A:5, B:5, C:3 and two seats it returns `remaining = 0` and
  `tied = [C]` (`Seats.ExactFillStillReportsTie`): the loop only stops at a
  group that does not fit, so a tie can come with zero remaining seats.
- The base nominee column always maps to school `ses`, whatever the target
  school. The order is ses, sob, sse, hass.
- A nominee field counts as filled when it holds any string, the empty string
  included. A blank cell is `None`.

## Model

| member | source | states |
|---|---|---|
| `Schools.FindSchool` | main.py:168-171 | The result is the first school in directory order whose majors contain the major. It is None exactly when no school lists the major. |
| `Schools.SchoolByMajor` | main.py:165-171 | No major gives None. Otherwise the result is the first school whose set contains the lower-cased major, and None exactly when no set contains it. |
| `Schools.SchoolByMajorIgnoresCase` | main.py:167 | Majors that differ only in letter case resolve to the same school. |
| `Schools.MajorOf` | main.py:186-190 | The result is the major of the first roster row with this CWID. It is None exactly when the CWID is absent from the roster. |
| `Schools.SchoolByCwid` | main.py:186-191 | An absent CWID gives None. Otherwise the result is the school of the first matching row's major; lower-casing it before `school_by_major` changes nothing. |
| `Schools.FirstFilled` | main.py:213-217 | The result is the school and text of the first field holding a string. It is (None, None) exactly when no field holds one. A school always comes with a text. |
| `Schools.GetNomineesSchool` | main.py:207-217 | The fields are scanned in the order ses, sob, sse, hass and the first string decides. The school is present exactly when the text is. |
| `Ballots.Split` | main.py:255 | Splitting on ", " yields at least one piece, and the first piece is a prefix of the text. |
| `Ballots.JoinSplit` | main.py:255 | Joining the pieces with ", " gives back the original nominee text. |
| `Ballots.SplitPiecesFree` | main.py:255 | No piece contains the separator ", ". |
| `Ballots.Classify` | main.py:239-255 | A ballot is invalid iff no nominee field holds a string. It is wrong_school iff it has nominees but the nominee school or the voter school (None included) is not the target. It is duplicate iff it is otherwise eligible and the CWID was already accepted. A valid ballot's candidates are the pieces of its nominee text split at ", ": at least one piece, none containing ", ", and joined with ", " they give back the text. |
| `Tally.InitializeSetups` | main.py:121-129 | The start state is consistent, with all four counters 0, no voters, an empty log and no votes for anyone. |
| `Tally.Election.constructor` | main.py:112-129 | The new object holds the start state. |
| `Tally.TalliedCounts` | main.py:145-150 | add_votes raises "valid" by the number of names and each candidate's count by its number of mentions, so a new candidate enters at its mentions. Other counters, voters and log are unchanged, and the key order only grows. |
| `Tally.TalliedConsistent` | main.py:145-150 | add_votes keeps keys equal to the listed candidates, each listed once with a count of at least 1, and "valid" equal to the sum of all counts. |
| `Tally.Election.AddVotes` | main.py:133-150 | The in-place loop reaches the state of `Tallied`. "valid" rises by the number of names, each count by its mentions, and the voters and log do not change. |
| `Tally.BallotEffect` | main.py:242-256 | A rejected ballot raises exactly one counter (invalid, wrong_school or duplicate) by 1 and leaves the votes, the key order and the voters alone. A valid ballot adds its CWID, which was not present before, and tallies its candidates. |
| `Tally.BallotLogged` | main.py:242-252 | Invalid and duplicate ballots are appended to the audit log. Wrong-school and valid ballots are not. |
| `Tally.Election.VerifyVote` | main.py:221-256 | The in-place update reaches the state of `AfterBallot`. |
| `Tally.RepeatVoterIsDuplicate` | main.py:249-254 | Once a CWID's vote is accepted, any later eligible ballot from that CWID is classified as a duplicate, however many ballots come in between. |
| `Tally.AfterBallotsGrow` | main.py:278-287 | Over any run, invalid + wrong_school + duplicate + number of voters grows by exactly the number of ballots. The voters only grow, the log grows with invalid + duplicate, and consistency is preserved. |
| `Tally.RunFromStart` | main.py:278-287 | From the start state, invalid + wrong_school + duplicate + number of voters equals the number of ballots. "valid" equals the sum of all tallies, and the log holds one entry per invalid or duplicate ballot. |
| `Tally.Election.IterateVotes` | main.py:260-287 | The in-place loop reaches the state of `AfterBallots`. The counters and voters account for every ballot and the voters only grow. |
| `Tally.ValidCountsSelections` | main.py:145-146 | One accepted ballot naming "A, B" gives valid = 2 with a single voter, so "valid" can exceed the number of voters. |
| `Seats.SortVotesSorted` | main.py:301 | The sorted tally is non-increasing by count and a permutation of the input. |
| `Seats.SortVotesStable` | main.py:301 | For every count, the entries with that count keep their input order. |
| `Seats.GroupVotesByNum` | main.py:315-318 | The loop builds exactly `Grouped`: one key per count that occurs, and each group lists the candidates with that count in input order. |
| `Seats.GroupedMembership` | main.py:315-318 | A candidate is in the group of count k exactly when it has count k. |
| `Seats.EachCandidateOneGroup` | main.py:315-318 | With distinct candidates, each candidate lies in the group of its own count and in no other group. |
| `Seats.GroupsForPartition` | main.py:315-318 | Taken together, the groups hold every candidate exactly as often as the tally does. |
| `Seats.SortThenGroup` | main.py:411-412 | Grouping the stably sorted tally gives the same groups, in the same order within each group, as grouping the unsorted tally. |
| `Seats.GroupedExample` | main.py:315-318 | Tally A:5, B:5, C:3 groups into {5: [A, B], 3: [C]}. |
| `Seats.DescendingKeys` | main.py:336 | The group keys are listed in strictly decreasing order, each exactly once. |
| `Seats.FillSeats` | main.py:336-343 | The loop with its break computes `Allocate` of the ranked groups. |
| `Seats.DetermineElected` | main.py:322-343 | It never elects more than the seats. remaining is unset exactly when tied is. With no tie every grouped candidate is elected. With a tie, remaining = seats minus elected, the tied group is larger than remaining, and it is the group of some count such that exactly the groups of higher count are elected, in descending order of count. |
| `Seats.AllocateOutcome` | main.py:335-343 | remaining is unset exactly when tied is. With no tie every group is elected. With a tie, the tied group is the first that does not fit, every group above it is elected, and remaining = seats minus elected is smaller than the tied group. When the free seats are not negative, at most that many are elected and remaining is at least 0. |
| `Seats.RankedOutcome` | main.py:335-343 | On the map of groups: at most the seats are elected when the seat count is not negative; remaining is unset exactly when tied is; with no tie every grouped candidate is elected; with a tie, remaining = seats minus elected is smaller than the tied group, and the tied group is the group of some count such that exactly the groups of higher count, in descending order, are elected. |
| `Seats.AllocateFitsAll` | main.py:336-338 | If the groups hold no more candidates than seats, all are elected and nothing is tied. |
| `Seats.SeatsForEveryone` | main.py:335-343 | With at least as many seats as candidates with votes, every candidate is elected and remaining and tied stay unset. |
| `Seats.TopGroupTooLarge` | main.py:336-342 | If the top-count group alone exceeds the seats, nobody is elected, remaining equals the seats, and that group is tied. |
| `Seats.ExactFillStillReportsTie` | main.py:337-342 | With groups {5: [A, B], 3: [C]} and two seats, A and B are elected, remaining is 0 and C is tied. |
| `Seats.ThreeWayTie` | main.py:337-342 | With group {5: [A, B, C]} and two seats, nobody is elected, remaining is 2 and A, B, C are tied. |

## Left out

- `load_config`, `find_csv_file`, `load_data` (main.py:33-91) are left out. They read the configuration file, list the directory and read CSV files. The model receives the ballots, the roster, the school, the seat count and the majors directory as parameters.
- `setup_logger` (main.py:95-108) and the text written by `logging.warning` are left out. The timestamp, severity and formatted row are not modelled. The log is an append-only sequence of rejected ballots.
- `print_output` and `main` (main.py:347-425) are left out. They only format the console report and call the core in order. `Seats.SortThenGroup` states how `sort_votes` and `group_votes_by_num` compose.
- The progress bar from tqdm and the pandas DataFrame/Series machinery are not modelled. Rows are plain sequences and records.
- The contents of `dict.school_majors` are not part of this model. The directory is a parameter of `SchoolByMajor` and `SchoolByCwid`.
- CWIDs are strings throughout. The source compares raw roster values in the lookup and uses `str(...)` in the duplicate check. The model does not capture a number and its string spelling being treated differently.
- `Schools.Lower` lower-cases only the ASCII letters A-Z. Python's `str.lower` also folds other Unicode letters.
- A non-string Major cell (NaN), which would make `.lower()` fail in the source, is not modelled: roster majors are strings.
- Seats.DetermineElected: the bound `|elected| <= numSeats` is stated only for `numSeats >= 0`. The seat count is an unbounded `int`, as in the source, and with a negative count, when any candidate has votes, the source elects nobody and reports a negative remainder; with no votes at all it reports nothing.
