/**
 * Result computation (main.py, sort_votes, group_votes_by_num and
 * determine_elected): the tally is sorted by count, grouped by equal count,
 * and seats are filled group by group from the highest count down until a
 * group no longer fits; that group is reported as tied.
 */
module Seats {
  import opened Wrappers

  /** An item of the votes dictionary: a candidate and its count. */
  type Entry = (string, nat)

  // ------------------------------------------------------------- sort_votes

  /**
   * Place `e` before the first entry whose count is not larger, so entries
   * of equal count keep their relative order.
   */
  function Insert(e: Entry, sorted: seq<Entry>): seq<Entry>
  {
    if sorted == [] then [e]
    else if sorted[0].1 <= e.1 then [e] + sorted
    else [sorted[0]] + Insert(e, sorted[1..])
  }

  /** sort_votes: a stable sort by count, highest first. */
  function SortVotes(entries: seq<Entry>): seq<Entry>
  {
    if entries == [] then [] else Insert(entries[0], SortVotes(entries[1..]))
  }

  predicate NonIncreasing(s: seq<Entry>)
  {
    forall i, j :: 0 <= i < j < |s| ==> s[i].1 >= s[j].1
  }

  /** The entries with count `k`, in their order in `entries`. */
  function WithCount(entries: seq<Entry>, k: nat): seq<Entry>
  {
    if entries == [] then []
    else (if entries[0].1 == k then [entries[0]] else []) + WithCount(entries[1..], k)
  }

  /** The candidates of a list of entries, in order. */
  function Names(entries: seq<Entry>): (r: seq<string>)
    ensures |r| == |entries|
  {
    if entries == [] then [] else [entries[0].0] + Names(entries[1..])
  }

  lemma {:induction false} InsertPermutes(e: Entry, s: seq<Entry>)
    ensures multiset(Insert(e, s)) == multiset(s) + multiset{e}
    ensures forall x :: x in Insert(e, s) <==> x == e || x in s
  {
    if s != [] && s[0].1 > e.1 {
      InsertPermutes(e, s[1..]);
      assert s == [s[0]] + s[1..];
    }
  }

  lemma {:induction false} InsertSorted(e: Entry, s: seq<Entry>)
    requires NonIncreasing(s)
    ensures NonIncreasing(Insert(e, s))
  {
    if s == [] {
    } else if s[0].1 <= e.1 {
      var r := [e] + s;
      forall i, j | 0 <= i < j < |r| ensures r[i].1 >= r[j].1 {
        if i == 0 { assert r[j] == s[j - 1]; assert s[0].1 >= s[j - 1].1; }
        else { assert r[i] == s[i - 1] && r[j] == s[j - 1]; }
      }
    } else {
      var t := Insert(e, s[1..]);
      InsertSorted(e, s[1..]);
      InsertPermutes(e, s[1..]);
      var r := [s[0]] + t;
      forall i, j | 0 <= i < j < |r| ensures r[i].1 >= r[j].1 {
        if i == 0 {
          assert r[j] in t;
          if r[j] != e {
            var k :| 0 <= k < |s[1..]| && s[1..][k] == r[j];
            assert s[k + 1] == r[j];
          }
        } else {
          assert r[i] == t[i - 1] && r[j] == t[j - 1];
        }
      }
    }
  }

  /** sort_votes yields its input in non-increasing order of count. */
  lemma {:induction false} SortVotesSorted(entries: seq<Entry>)
    ensures NonIncreasing(SortVotes(entries))
    ensures multiset(SortVotes(entries)) == multiset(entries)
  {
    if entries != [] {
      SortVotesSorted(entries[1..]);
      InsertSorted(entries[0], SortVotes(entries[1..]));
      InsertPermutes(entries[0], SortVotes(entries[1..]));
      assert entries == [entries[0]] + entries[1..];
    }
  }

  lemma {:induction false} InsertWithCount(e: Entry, s: seq<Entry>, k: nat)
    ensures WithCount(Insert(e, s), k) == (if e.1 == k then [e] else []) + WithCount(s, k)
  {
    if s != [] && s[0].1 > e.1 {
      InsertWithCount(e, s[1..], k);
      assert ([s[0]] + Insert(e, s[1..]))[1..] == Insert(e, s[1..]);
    } else if s != [] {
      assert ([e] + s)[1..] == s;
    }
  }

  /**
   * sort_votes is stable: for every count, the entries with that count
   * appear in the same order before and after sorting.
   */
  lemma {:induction false} SortVotesStable(entries: seq<Entry>, k: nat)
    ensures WithCount(SortVotes(entries), k) == WithCount(entries, k)
  {
    if entries != [] {
      SortVotesStable(entries[1..], k);
      InsertWithCount(entries[0], SortVotes(entries[1..]), k);
    }
  }

  // ----------------------------------------------------- group_votes_by_num

  function CountsOf(entries: seq<Entry>): set<nat>
  {
    set e | e in entries :: e.1
  }

  /** The groups group_votes_by_num builds: count -> candidates in order. */
  function Grouped(entries: seq<Entry>): map<nat, seq<string>>
  {
    map k | k in CountsOf(entries) :: Names(WithCount(entries, k))
  }

  lemma {:induction false} WithCountAppend(a: seq<Entry>, b: seq<Entry>, k: nat)
    ensures WithCount(a + b, k) == WithCount(a, k) + WithCount(b, k)
  {
    if a != [] {
      WithCountAppend(a[1..], b, k);
      assert (a + b)[1..] == a[1..] + b;
    } else {
      assert a + b == b;
    }
  }

  lemma {:induction false} NamesAppend(a: seq<Entry>, b: seq<Entry>)
    ensures Names(a + b) == Names(a) + Names(b)
  {
    if a != [] {
      NamesAppend(a[1..], b);
      assert (a + b)[1..] == a[1..] + b;
    } else {
      assert a + b == b;
    }
  }

  lemma CountsOfSnoc(entries: seq<Entry>, e: Entry)
    ensures CountsOf(entries + [e]) == CountsOf(entries) + {e.1}
  {
  }

  lemma GroupedSnoc(entries: seq<Entry>, e: Entry)
    ensures Grouped(entries + [e]) ==
      Grouped(entries)[e.1 := (if e.1 in Grouped(entries) then Grouped(entries)[e.1] else []) + [e.0]]
  {
    var g, g' := Grouped(entries), Grouped(entries + [e]);
    var r := g[e.1 := (if e.1 in g then g[e.1] else []) + [e.0]];
    CountsOfSnoc(entries, e);
    assert g'.Keys == r.Keys;
    forall k | k in g'.Keys ensures g'[k] == r[k] {
      WithCountAppend(entries, [e], k);
      NamesAppend(WithCount(entries, k), WithCount([e], k));
      assert [e][1..] == [];
      if k !in g {
        NoCountNoEntries(entries, k);
      }
    }
  }

  lemma {:induction false} NoCountNoEntries(entries: seq<Entry>, k: nat)
    requires k !in CountsOf(entries)
    ensures WithCount(entries, k) == []
  {
    if entries != [] {
      assert CountsOf(entries[1..]) <= CountsOf(entries);
      NoCountNoEntries(entries[1..], k);
    }
  }

  lemma {:induction false} NamesWithCountMember(entries: seq<Entry>, k: nat, c: string)
    ensures c in Names(WithCount(entries, k)) <==> (c, k) in entries
  {
    if entries != [] {
      NamesWithCountMember(entries[1..], k, c);
      var head := if entries[0].1 == k then [entries[0]] else [];
      NamesAppend(head, WithCount(entries[1..], k));
      assert entries == [entries[0]] + entries[1..];
    }
  }

  /**
   * A candidate is in the group of count `k` exactly when it has count `k`;
   * with distinct candidates, each lies in exactly one group.
   */
  lemma GroupedMembership(entries: seq<Entry>)
    ensures forall k :: k in Grouped(entries) <==> exists i :: 0 <= i < |entries| && entries[i].1 == k
    ensures forall k, c :: k in Grouped(entries) ==> (c in Grouped(entries)[k] <==> (c, k) in entries)
  {
    forall k, c | k in Grouped(entries)
      ensures c in Grouped(entries)[k] <==> (c, k) in entries
    {
      NamesWithCountMember(entries, k, c);
    }
    forall k ensures k in Grouped(entries) <==> exists i :: 0 <= i < |entries| && entries[i].1 == k {
      if k in Grouped(entries) {
        var e :| e in entries && e.1 == k;
      }
    }
  }

  /**
   * With distinct candidates (the keys of a dictionary), each candidate is
   * in the group of its own count and in no other group.
   */
  lemma EachCandidateOneGroup(entries: seq<Entry>)
    requires forall i, j :: 0 <= i < j < |entries| ==> entries[i].0 != entries[j].0
    ensures forall i, k :: 0 <= i < |entries| && k in Grouped(entries) ==>
      (entries[i].0 in Grouped(entries)[k] <==> k == entries[i].1)
    ensures forall i :: 0 <= i < |entries| ==> entries[i].1 in Grouped(entries)
  {
    GroupedMembership(entries);
    forall i, k | 0 <= i < |entries| && k in Grouped(entries)
      ensures entries[i].0 in Grouped(entries)[k] <==> k == entries[i].1
    {
      if (entries[i].0, k) in entries {
        var j :| 0 <= j < |entries| && entries[j] == (entries[i].0, k);
        assert j == i;
      }
      assert entries[i] == (entries[i].0, entries[i].1);
    }
  }

  /**
   * Grouping a stably sorted tally gives the same groups, in the same order
   * inside each group, as grouping the tally itself.
   */
  lemma SortThenGroup(entries: seq<Entry>)
    ensures Grouped(SortVotes(entries)) == Grouped(entries)
  {
    SortVotesSorted(entries);
    assert forall e :: e in SortVotes(entries) <==> e in entries by {
      forall e ensures e in SortVotes(entries) <==> e in entries {
        assert e in SortVotes(entries) <==> e in multiset(SortVotes(entries));
      }
    }
    assert CountsOf(SortVotes(entries)) == CountsOf(entries);
    forall k | k in CountsOf(entries)
      ensures Grouped(SortVotes(entries))[k] == Grouped(entries)[k]
    {
      SortVotesStable(entries, k);
    }
  }

  /** group_votes_by_num: append each candidate to the list of its count. */
  method GroupVotesByNum(votes: seq<Entry>) returns (votesByNum: map<nat, seq<string>>)
    ensures votesByNum == Grouped(votes)
    ensures forall k :: k in votesByNum <==> exists i :: 0 <= i < |votes| && votes[i].1 == k
    ensures forall k, c :: k in votesByNum ==> (c in votesByNum[k] <==> (c, k) in votes)
  {
    votesByNum := map[];
    var i := 0;
    while i < |votes|
      invariant 0 <= i <= |votes|
      invariant votesByNum == Grouped(votes[..i])
    {
      var (key, value) := votes[i];
      assert votes[..i + 1] == votes[..i] + [(key, value)];
      GroupedSnoc(votes[..i], (key, value));
      var group := if value in votesByNum then votesByNum[value] else [];
      votesByNum := votesByNum[value := group + [key]];
      i := i + 1;
    }
    assert votes[..i] == votes;
    GroupedMembership(votes);
  }

  // ------------------------------------------------------ determine_elected

  lemma {:induction false} MaxExists(ks: set<nat>)
    requires ks != {}
    ensures exists m :: m in ks && forall k :: k in ks ==> k <= m
  {
    var x :| x in ks;
    if ks != {x} {
      MaxExists(ks - {x});
      var m :| m in ks - {x} && forall k :: k in ks - {x} ==> k <= m;
      var best := if x > m then x else m;
      forall k | k in ks ensures k <= best {
        if k != x { assert k in ks - {x}; }
      }
    } else {
      assert forall k :: k in ks ==> k <= x;
    }
  }

  function MaxKey(ks: set<nat>): (m: nat)
    requires ks != {}
    ensures m in ks && forall k :: k in ks ==> k <= m
  {
    MaxExists(ks);
    var m :| m in ks && forall k :: k in ks ==> k <= m;
    m
  }

  /** The keys of a group map, highest first (sorted(..., reverse=True)). */
  function DescendingKeys(ks: set<nat>): (r: seq<nat>)
    ensures forall i, j :: 0 <= i < j < |r| ==> r[i] > r[j]
    ensures forall k :: k in r <==> k in ks
    decreases ks
  {
    if ks == {} then []
    else
      var m := MaxKey(ks);
      var rest := DescendingKeys(ks - {m});
      assert forall i :: 0 <= i < |rest| ==> rest[i] in ks - {m};
      [m] + rest
  }

  /** The groups of `votesByNum`, from the highest count down. */
  function Ranked(votesByNum: map<nat, seq<string>>): (r: seq<seq<string>>)
    ensures |r| == |DescendingKeys(votesByNum.Keys)|
  {
    var ks := DescendingKeys(votesByNum.Keys);
    seq(|ks|, i requires 0 <= i < |ks| => votesByNum[ks[i]])
  }

  function Flatten(groups: seq<seq<string>>): seq<string>
  {
    if groups == [] then [] else groups[0] + Flatten(groups[1..])
  }

  /** The three results of determine_elected. */
  datatype Allocation = Allocation(elected: seq<string>, remaining: Option<int>, tied: Option<seq<string>>)

  /**
   * Greedy filling of `free` seats by the groups in order: a group that
   * fits is elected whole; the first one that does not is tied for the
   * seats left.
   */
  function Allocate(groups: seq<seq<string>>, free: int): Allocation
  {
    if groups == [] then Allocation([], None, None)
    else if |groups[0]| <= free then
      var a := Allocate(groups[1..], free - |groups[0]|);
      a.(elected := groups[0] + a.elected)
    else Allocation([], Some(free), Some(groups[0]))
  }

  /**
   * The outcome of the greedy fill: never more elected than seats; either
   * no tie and every group elected, or a tie on a whole group that does not
   * fit the seats left, with every higher group elected.
   */
  lemma {:induction false} AllocateOutcome(groups: seq<seq<string>>, free: int)
    ensures var a := Allocate(groups, free);
      && (a.remaining.None? <==> a.tied.None?)
      && (free >= 0 ==> |a.elected| <= free)
      && (a.tied.None? ==> a.elected == Flatten(groups))
      && (a.tied.Some? ==>
            && a.remaining == Some(free - |a.elected|)
            && |a.tied.value| > a.remaining.value
            && (free >= 0 ==> a.remaining.value >= 0)
            && exists i :: 0 <= i < |groups| && a.tied.value == groups[i] && a.elected == Flatten(groups[..i]))
  {
    if groups != [] && |groups[0]| <= free {
      var rest := groups[1..];
      AllocateOutcome(rest, free - |groups[0]|);
      var a := Allocate(rest, free - |groups[0]|);
      if a.tied.Some? {
        var i :| 0 <= i < |rest| && a.tied.value == rest[i] && a.elected == Flatten(rest[..i]);
        assert groups[..i + 1][1..] == rest[..i];
        assert groups[i + 1] == rest[i];
      }
    } else if groups != [] {
      assert groups[..0] == [];
    }
  }

  /** With at least as many seats as grouped candidates, all are elected and none is tied. */
  lemma {:induction false} AllocateFitsAll(groups: seq<seq<string>>, free: int)
    requires |Flatten(groups)| <= free
    ensures Allocate(groups, free) == Allocation(Flatten(groups), None, None)
  {
    if groups != [] {
      AllocateFitsAll(groups[1..], free - |groups[0]|);
    }
  }

  /** An allocation with `prefix` elected ahead of it. */
  function After(prefix: seq<string>, a: Allocation): Allocation
  {
    a.(elected := prefix + a.elected)
  }

  lemma AllocateFitsStep(groups: seq<seq<string>>, i: nat, prefix: seq<string>, free: int)
    requires i < |groups| && |groups[i]| <= free
    ensures After(prefix, Allocate(groups[i..], free))
         == After(prefix + groups[i], Allocate(groups[i + 1..], free - |groups[i]|))
  {
  }

  lemma AllocateTieStep(groups: seq<seq<string>>, i: nat, prefix: seq<string>, free: int)
    requires i < |groups| && |groups[i]| > free
    ensures After(prefix, Allocate(groups[i..], free)) == Allocation(prefix, Some(free), Some(groups[i]))
  {
  }

  /** Every candidate of every group is elected when no group was tied. */
  lemma RankedAllElected(votesByNum: map<nat, seq<string>>, elected: seq<string>)
    requires elected == Flatten(Ranked(votesByNum))
    ensures forall k, c :: k in votesByNum && c in votesByNum[k] ==> c in elected
  {
    var keys := DescendingKeys(votesByNum.Keys);
    forall k, c | k in votesByNum && c in votesByNum[k] ensures c in elected {
      var j :| 0 <= j < |keys| && keys[j] == k;
      FlattenMember(Ranked(votesByNum), j, c);
    }
  }

  lemma RankedTiedGroup(votesByNum: map<nat, seq<string>>, g: seq<string>)
    requires exists i :: 0 <= i < |Ranked(votesByNum)| && g == Ranked(votesByNum)[i]
    ensures g in votesByNum.Values
  {
  }

  /** The outcome of the greedy fill, stated on the group map itself. */
  lemma RankedOutcome(votesByNum: map<nat, seq<string>>, numSeats: int)
    ensures var a := Allocate(Ranked(votesByNum), numSeats);
      && (numSeats >= 0 ==> |a.elected| <= numSeats)
      && (a.remaining.None? <==> a.tied.None?)
      && (a.tied.None? ==> forall k, c :: k in votesByNum && c in votesByNum[k] ==> c in a.elected)
      && (a.tied.Some? ==>
            && a.remaining == Some(numSeats - |a.elected|)
            && |a.tied.value| > a.remaining.value
            && a.tied.value in votesByNum.Values
            && exists i :: 0 <= i < |Ranked(votesByNum)| &&
                 a.tied.value == votesByNum[DescendingKeys(votesByNum.Keys)[i]] &&
                 a.elected == Flatten(Ranked(votesByNum)[..i]))
  {
    var a := Allocate(Ranked(votesByNum), numSeats);
    AllocateOutcome(Ranked(votesByNum), numSeats);
    if a.tied.None? {
      RankedAllElected(votesByNum, a.elected);
    } else {
      RankedTiedGroup(votesByNum, a.tied.value);
    }
  }

  /**
   * The loop of determine_elected over the groups, highest count first:
   * extend `elected` while a group fits, break at the first that does not.
   */
  method FillSeats(groups: seq<seq<string>>, numSeats: int)
    returns (elected: seq<string>, remaining: Option<int>, tied: Option<seq<string>>)
    ensures Allocation(elected, remaining, tied) == Allocate(groups, numSeats)
  {
    elected, remaining, tied := [], None, None;
    var i := 0;
    while i < |groups|
      invariant 0 <= i <= |groups|
      invariant remaining.None? && tied.None?
      invariant Allocate(groups, numSeats) == After(elected, Allocate(groups[i..], numSeats - |elected|))
    {
      var value := groups[i];
      if |value| <= numSeats - |elected| {
        AllocateFitsStep(groups, i, elected, numSeats - |elected|);
        elected := elected + value;
      } else {
        AllocateTieStep(groups, i, elected, numSeats - |elected|);
        remaining := Some(numSeats - |elected|);
        tied := Some(value);
        break;
      }
      i := i + 1;
    }
    if tied.None? {
      assert groups[i..] == [];
    }
  }

  /** determine_elected: the groups in descending order of count, then the greedy fill. */
  method DetermineElected(votesByNum: map<nat, seq<string>>, numSeats: int)
    returns (elected: seq<string>, remaining: Option<int>, tied: Option<seq<string>>)
    ensures Allocation(elected, remaining, tied) == Allocate(Ranked(votesByNum), numSeats)
    ensures numSeats >= 0 ==> |elected| <= numSeats
    ensures remaining.None? <==> tied.None?
    ensures tied.None? ==> forall k, c :: k in votesByNum && c in votesByNum[k] ==> c in elected
    ensures tied.Some? ==>
      && remaining == Some(numSeats - |elected|)
      && |tied.value| > remaining.value
      && tied.value in votesByNum.Values
      && exists i :: 0 <= i < |Ranked(votesByNum)| &&
           tied.value == votesByNum[DescendingKeys(votesByNum.Keys)[i]] &&
           elected == Flatten(Ranked(votesByNum)[..i])
  {
    elected, remaining, tied := FillSeats(Ranked(votesByNum), numSeats);
    RankedOutcome(votesByNum, numSeats);
  }

  lemma {:induction false} FlattenMember(groups: seq<seq<string>>, j: nat, c: string)
    requires j < |groups| && c in groups[j]
    ensures c in Flatten(groups)
  {
    if j > 0 {
      FlattenMember(groups[1..], j - 1, c);
    }
  }

  // ------------------------------------------- the groups partition the tally

  /** The groups of the counts `ks`, in that order. */
  function GroupsFor(entries: seq<Entry>, ks: seq<nat>): (r: seq<seq<string>>)
    ensures |r| == |ks|
    ensures forall i :: 0 <= i < |ks| ==> r[i] == Names(WithCount(entries, ks[i]))
  {
    if ks == [] then [] else [Names(WithCount(entries, ks[0]))] + GroupsFor(entries, ks[1..])
  }

  lemma RankedGrouped(entries: seq<Entry>)
    ensures Ranked(Grouped(entries)) == GroupsFor(entries, DescendingKeys(CountsOf(entries)))
  {
    assert Grouped(entries).Keys == CountsOf(entries);
  }

  lemma {:induction false} GroupsForSplit(a: seq<Entry>, b: seq<Entry>, ks: seq<nat>)
    ensures multiset(Flatten(GroupsFor(a + b, ks)))
         == multiset(Flatten(GroupsFor(a, ks))) + multiset(Flatten(GroupsFor(b, ks)))
  {
    if ks != [] {
      GroupsForSplit(a, b, ks[1..]);
      WithCountAppend(a, b, ks[0]);
      NamesAppend(WithCount(a, ks[0]), WithCount(b, ks[0]));
    }
  }

  lemma {:induction false} NamesAt(entries: seq<Entry>, i: nat)
    requires i < |entries|
    ensures Names(entries)[i] == entries[i].0
  {
    if i > 0 {
      NamesAt(entries[1..], i - 1);
    }
  }

  lemma {:induction false} GroupsForSingle(e: Entry, ks: seq<nat>)
    requires forall i, j :: 0 <= i < j < |ks| ==> ks[i] != ks[j]
    ensures multiset(Flatten(GroupsFor([e], ks))) == if e.1 in ks then multiset{e.0} else multiset{}
  {
    if ks != [] {
      GroupsForSingle(e, ks[1..]);
      assert [e][1..] == [];
      var head := Names(WithCount([e], ks[0]));
      assert Flatten(GroupsFor([e], ks)) == head + Flatten(GroupsFor([e], ks[1..]));
      assert e.1 in ks <==> e.1 == ks[0] || e.1 in ks[1..];
      if e.1 == ks[0] {
        assert WithCount([e], ks[0]) == [e];
        assert head == [e.0];
        assert e.1 !in ks[1..];
      } else {
        assert WithCount([e], ks[0]) == [];
        assert head == [];
      }
    }
  }

  /**
   * Taken together, the groups of all counts hold every candidate of the
   * tally exactly as often as the tally does.
   */
  lemma {:induction false} GroupsForPartition(entries: seq<Entry>, ks: seq<nat>)
    requires forall i, j :: 0 <= i < j < |ks| ==> ks[i] != ks[j]
    requires forall e :: e in entries ==> e.1 in ks
    ensures multiset(Flatten(GroupsFor(entries, ks))) == multiset(Names(entries))
  {
    if entries == [] {
      EmptyGroups(ks);
    } else {
      var e, rest := entries[0], entries[1..];
      assert entries == [e] + rest;
      GroupsForPartition(rest, ks);
      GroupsForSplit([e], rest, ks);
      GroupsForSingle(e, ks);
      NamesAppend([e], rest);
    }
  }

  lemma {:induction false} EmptyGroups(ks: seq<nat>)
    ensures Flatten(GroupsFor([], ks)) == []
  {
    if ks != [] {
      EmptyGroups(ks[1..]);
    }
  }

  /**
   * When there are at least as many seats as candidates with votes, every
   * one of them is elected and nobody is tied.
   */
  lemma SeatsForEveryone(entries: seq<Entry>, numSeats: int)
    requires |entries| <= numSeats
    ensures var a := Allocate(Ranked(Grouped(entries)), numSeats);
      && a.remaining.None? && a.tied.None?
      && forall i :: 0 <= i < |entries| ==> entries[i].0 in a.elected
  {
    var ks := DescendingKeys(CountsOf(entries));
    RankedGrouped(entries);
    forall e | e in entries ensures e.1 in ks {
      assert e.1 in CountsOf(entries);
    }
    GroupsForPartition(entries, ks);
    var flat := Flatten(GroupsFor(entries, ks));
    assert |flat| == |multiset(flat)| == |multiset(Names(entries))| == |entries|;
    AllocateFitsAll(GroupsFor(entries, ks), numSeats);
    forall i | 0 <= i < |entries| ensures entries[i].0 in flat {
      NamesAt(entries, i);
      assert entries[i].0 in multiset(Names(entries));
    }
  }

  /** When the top group alone exceeds the seats, nobody is elected and it is tied for all of them. */
  lemma TopGroupTooLarge(votesByNum: map<nat, seq<string>>, numSeats: int)
    requires votesByNum != map[]
    requires |votesByNum[MaxKey(votesByNum.Keys)]| > numSeats
    ensures Allocate(Ranked(votesByNum), numSeats)
         == Allocation([], Some(numSeats), Some(votesByNum[MaxKey(votesByNum.Keys)]))
  {
  }

  lemma TwoKeys()
    ensures DescendingKeys({5, 3}) == [5, 3]
  {
  }

  /**
   * Tally A:5, B:5, C:3 and two seats: A and B fill the seats exactly, yet
   * the loop still meets the group of C and reports it as tied for zero
   * remaining seats.
   */
  lemma ExactFillStillReportsTie()
    ensures Allocate(Ranked(map[5 := ["A", "B"], 3 := ["C"]]), 2)
         == Allocation(["A", "B"], Some(0), Some(["C"]))
  {
    TwoKeys();
    assert map[5 := ["A", "B"], 3 := ["C"]].Keys == {5, 3};
    assert Ranked(map[5 := ["A", "B"], 3 := ["C"]]) == [["A", "B"], ["C"]];
  }

  /** Tally A:5, B:5, C:5 and two seats: nobody is elected and all three are tied for two seats. */
  lemma ThreeWayTie()
    ensures Allocate(Ranked(map[5 := ["A", "B", "C"]]), 2)
         == Allocation([], Some(2), Some(["A", "B", "C"]))
  {
    assert map[5 := ["A", "B", "C"]].Keys == {5};
    assert MaxKey({5}) == 5;
    assert {5} - {5} == {};
    assert Ranked(map[5 := ["A", "B", "C"]]) == [["A", "B", "C"]];
  }

  /** Grouping the tally A:5, B:5, C:3 gives the groups of the example above. */
  lemma GroupedExample()
    ensures Grouped([("A", 5), ("B", 5), ("C", 3)]) == map[5 := ["A", "B"], 3 := ["C"]]
  {
    var es: seq<Entry> := [("A", 5), ("B", 5), ("C", 3)];
    assert es[0] in es && es[2] in es;
    assert CountsOf(es) == {5, 3};
    assert es[1..][1..][1..] == [];
    assert WithCount(es, 5) == [("A", 5), ("B", 5)];
    assert WithCount(es, 3) == [("C", 3)];
    assert Names([("A", 5), ("B", 5)]) == ["A", "B"];
    assert Names([("C", 3)]) == ["C"];
    assert Grouped(es).Keys == {5, 3};
    assert Grouped(es)[5] == ["A", "B"] && Grouped(es)[3] == ["C"];
  }
}
