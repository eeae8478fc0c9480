/** The cached member list of a group, under joins and leaves. */
module GroupMembers {
  import opened Jid

  type Members = seq<JID>

  predicate Distinct(members: Members)
  {
    forall i, j :: 0 <= i < j < |members| ==> members[i] != members[j]
  }

  function Elements(members: Members): set<JID> {
    set m | m in members
  }

  function JoinOne(members: Members, jid: JID): Members {
    if jid in members then members else members + [jid]
  }

  function Join(members: Members, join: seq<JID>): Members {
    if join == [] then members else JoinOne(Join(members, join[..|join| - 1]), join[|join| - 1])
  }

  /** The first place of a member. */
  function Place(members: Members, jid: JID): (i: nat)
    requires jid in members
    ensures i < |members| && members[i] == jid && jid !in members[..i]
  {
    if members[0] == jid then 0 else Place(members[1..], jid) + 1
  }

  /** The last member takes the place of the one that leaves. */
  function LeaveOne(members: Members, jid: JID): Members {
    if jid in members then members[Place(members, jid) := members[|members| - 1]][..|members| - 1] else members
  }

  /** Joining moves nobody: the members stay where they are, and behind them come only new ones that joined. */
  lemma {:induction false} JoinAppends(members: Members, join: seq<JID>)
    ensures members <= Join(members, join)
    ensures forall j: JID :: j in Join(members, join)[|members|..] ==> j in join && j !in members
  {
    if join != [] {
      var before, last := join[..|join| - 1], join[|join| - 1];
      JoinAppends(members, before);
      var joined := Join(members, before);
      assert (joined + [last])[|members|..] == joined[|members|..] + [last];
      assert forall j :: j in join <==> j in before || j == last;
      assert last !in joined ==> last !in members;
    }
  }

  function Leave(members: Members, leave: seq<JID>): Members {
    if leave == [] then members else LeaveOne(Leave(members, leave[..|leave| - 1]), leave[|leave| - 1])
  }

  function Update(members: Members, join: seq<JID>, leave: seq<JID>): Members {
    Leave(Join(members, join), leave)
  }

  // ---------- Counting ----------

  lemma SwapRemove<T>(s: seq<T>, i: nat)
    requires i < |s|
    ensures multiset(s[i := s[|s| - 1]][..|s| - 1]) == multiset(s) - multiset{s[i]}
  {
    var last := |s| - 1;
    var r := s[i := s[last]][..last];
    if i == last {
      assert s == r + [s[last]];
    } else {
      assert s == s[..i] + [s[i]] + s[i + 1..last] + [s[last]];
      assert r == s[..i] + [s[last]] + s[i + 1..last];
    }
  }

  /** Each leave takes away one occurrence, whatever the list. */
  lemma LeaveOneCounts(members: Members, jid: JID)
    ensures multiset(LeaveOne(members, jid)) == multiset(members) - multiset{jid}
  {
    if jid in members {
      SwapRemove(members, Place(members, jid));
    }
  }

  lemma {:induction false} LeaveCounts(members: Members, leave: seq<JID>)
    ensures multiset(Leave(members, leave)) == multiset(members) - multiset(leave)
  {
    hide LeaveOne;
    if leave == [] {
    } else {
      var before, last := leave[..|leave| - 1], leave[|leave| - 1];
      LeaveCounts(members, before);
      LeaveOneCounts(Leave(members, before), last);
      assert leave == before + [last];
    }
  }

  lemma {:induction false} JoinCounts(members: Members, join: seq<JID>, m: JID)
    ensures multiset(Join(members, join))[m]
         == if m in members then multiset(members)[m] else if m in join then 1 else 0
  {
    if join != [] {
      var before, last := join[..|join| - 1], join[|join| - 1];
      JoinCounts(members, before, m);
      assert join == before + [last];
      JoinOneCounts(Join(members, before), last, m);
    }
  }

  lemma JoinOneCounts(members: Members, jid: JID, m: JID)
    ensures multiset(JoinOne(members, jid))[m] == if m == jid && m !in members then 1 else multiset(members)[m]
  {
    assert m in members <==> multiset(members)[m] > 0;
  }

  /** What an event does to any list, with or without duplicates: how often each member is listed afterwards. */
  lemma UpdateCounts(members: Members, join: seq<JID>, leave: seq<JID>, m: JID)
    ensures var listed := multiset(members)[m];
            var joined := if listed == 0 && m in join then 1 else listed;
            multiset(Update(members, join, leave))[m]
            == if joined <= multiset(leave)[m] then 0 else joined - multiset(leave)[m]
  {
    hide Join, Leave;
    JoinCounts(members, join, m);
    LeaveCounts(Join(members, join), leave);
    assert m in members <==> multiset(members)[m] > 0;
  }

  // ---------- Members without duplicates ----------

  lemma {:induction false} DistinctCounts(members: Members)
    ensures Distinct(members) <==> forall m :: multiset(members)[m] <= 1
  {
    if members == [] {
    } else {
      var before, last := members[..|members| - 1], members[|members| - 1];
      assert members == before + [last];
      DistinctCounts(before);
      assert last in before <==> multiset(before)[last] > 0;
      assert multiset(members)[last] == multiset(before)[last] + 1;
      if Distinct(members) {
        assert forall i :: 0 <= i < |before| ==> members[i] != last;
      } else if Distinct(before) {
        assert last in before;
      } else {
        var m :| multiset(before)[m] > 1;
        assert multiset(members)[m] > 1;
      }
    }
  }

  /** An event leaves a duplicate-free list duplicate-free, with the members it had or gained and did not lose. */
  lemma UpdateIsExact(members: Members, join: seq<JID>, leave: seq<JID>)
    requires Distinct(members)
    ensures Distinct(Update(members, join, leave))
    ensures Elements(Update(members, join, leave)) == (Elements(members) + Elements(join)) - Elements(leave)
  {
    hide Update, Distinct;
    var updated := Update(members, join, leave);
    DistinctCounts(members);
    forall m ensures multiset(updated)[m] <= 1
             ensures m in updated <==> (m in members || m in join) && m !in leave
    {
      UpdateCounts(members, join, leave, m);
      assert multiset(members)[m] <= 1;
      CountsTell(updated, m);
      CountsTell(members, m);
      CountsTell(leave, m);
    }
    DistinctCounts(updated);
  }

  lemma CountsTell(members: Members, m: JID)
    ensures m in members <==> multiset(members)[m] > 0
  {
  }

  /** With duplicates, one leave is not enough: a member is gone if and only if it is named as often as it is listed. */
  lemma GoneIff(members: Members, leave: seq<JID>, m: JID)
    ensures m !in Update(members, [], leave) <==> multiset(members)[m] <= multiset(leave)[m]
  {
    hide Update;
    UpdateCounts(members, [], leave, m);
    CountsTell(Update(members, [], leave), m);
  }

  /** A member listed twice stays when it leaves once. */
  lemma ListedTwiceStays(m: JID)
    ensures Update([m, m], [], [m]) == [m]
  {
    var members, leave := [m, m], [m];
    assert leave[..0] == [] && Join(members, []) == members;
    assert Leave(members, []) == members && Leave(members, leave) == LeaveOne(members, m);
    assert Place(members, m) == 0;
    assert members[0 := members[1]][..1] == [m];
  }

  datatype Event = Event(join: seq<JID>, leave: seq<JID>)

  function Run(members: Members, events: seq<Event>): Members {
    if events == [] then members
    else Update(Run(members, events[..|events| - 1]), events[|events| - 1].join, events[|events| - 1].leave)
  }

  /** The members as a set, event by event. */
  function Tally(members: set<JID>, events: seq<Event>): set<JID> {
    if events == [] then members
    else (Tally(members, events[..|events| - 1]) + Elements(events[|events| - 1].join)) - Elements(events[|events| - 1].leave)
  }

  /** The same over any run of events. */
  lemma {:induction false} EveryRunIsExact(members: Members, events: seq<Event>)
    requires Distinct(members)
    ensures Distinct(Run(members, events)) && Elements(Run(members, events)) == Tally(Elements(members), events)
  {
    hide Update, Elements, Distinct;
    if events != [] {
      var last := events[|events| - 1];
      EveryRunIsExact(members, events[..|events| - 1]);
      UpdateIsExact(Run(members, events[..|events| - 1]), last.join, last.leave);
    }
  }

  // ---------- The code ----------

  class GroupMeta {
    var members: Members

    constructor (members: Members)
      ensures this.members == members
    {
      this.members := members;
    }
  }

  method UpdateGroupParticipantCache(cached: GroupMeta, join: seq<JID>, leave: seq<JID>)
    modifies cached
    ensures cached.members == Update(old(cached.members), join, leave)
    ensures Distinct(old(cached.members)) ==>
      Distinct(cached.members)
      && Elements(cached.members) == (Elements(old(cached.members)) + Elements(join)) - Elements(leave)
  {
    hide Distinct, Elements, Place;
    ghost var was := cached.members;
    if |join| == 0 && |leave| == 0 {
      Exact(was, join, leave);
      return;
    }
    for n := 0 to |join|
      invariant cached.members == Join(was, join[..n])
    {
      var jid := join[n];
      assert join[..n + 1][..n] == join[..n];
      var found := false;
      for i := 0 to |cached.members|
        invariant !found && jid !in cached.members[..i] && cached.members == Join(was, join[..n])
      {
        if jid == cached.members[i] {
          found := true;
          break;
        }
      }
      if !found {
        assert cached.members[..|cached.members|] == cached.members;
        cached.members := cached.members + [jid];
      }
    }
    assert join[..|join|] == join;
    for n := 0 to |leave|
      invariant cached.members == Leave(Join(was, join), leave[..n])
    {
      assert leave[..n + 1][..n] == leave[..n];
      RemoveMember(cached, leave[n]);
    }
    assert leave[..|leave|] == leave;
    Exact(was, join, leave);
  }

  method RemoveMember(cached: GroupMeta, jid: JID)
    modifies cached
    ensures cached.members == LeaveOne(old(cached.members), jid)
  {
    var members := cached.members;
    for i := 0 to |members|
      invariant jid !in members[..i] && cached.members == members
    {
      if members[i] == jid {
        FirstPlace(members, jid, i);
        cached.members := cached.members[i := cached.members[|cached.members| - 1]];
        cached.members := cached.members[..|cached.members| - 1];
        return;
      }
    }
    assert members[..|members|] == members;
  }

  lemma {:induction false} FirstPlace(members: Members, jid: JID, i: nat)
    requires i < |members| && members[i] == jid && jid !in members[..i]
    ensures Place(members, jid) == i
  {
    if i > 0 {
      assert members[0] == members[..i][0];
      assert members[1..][..i - 1] == members[..i][1..];
      FirstPlace(members[1..], jid, i - 1);
    }
  }

  lemma Exact(members: Members, join: seq<JID>, leave: seq<JID>)
    ensures Distinct(members) ==>
      Distinct(Update(members, join, leave))
      && Elements(Update(members, join, leave)) == (Elements(members) + Elements(join)) - Elements(leave)
  {
    hide *;
    if Distinct(members) {
      UpdateIsExact(members, join, leave);
    }
  }
}
