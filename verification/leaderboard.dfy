/** The two leaderboards: race rows as the database join returns them, the
    aggregation loops of the individual and the office board, and the facts the
    boards promise. The database query and the period filter are left to the caller:
    the rows given here are the rows the query returned. */
module Leaderboard {
  import opened Wrappers
  import opened Sorting
  import opened Grouping

  // ------------------------------------------------------ individual board

  /** `offices(name, color_theme)` of a profile */
  datatype OfficeRef = OfficeRef(name: string, colorTheme: Option<string>)

  /** `profiles(name, avatar_url, offices(...))` */
  datatype Profile = Profile(name: string, avatarUrl: Option<string>, office: Option<OfficeRef>)

  /** A race with its runner's profile, `null` when the join found none */
  datatype RaceWithJoin = RaceWithJoin(userId: string, scoredDistanceKm: real, profile: Option<Profile>)

  /** The descriptive fields of an individual entry */
  datatype UserInfo = UserInfo(name: string, avatarUrl: Option<string>, officeName: Option<string>, officeColor: Option<string>)

  /** The fields taken from the runner's first race; a missing profile reads as
      "Unknown" with no avatar and no office */
  function UserInfoOf(p: Option<Profile>): UserInfo {
    match p
    case None => UserInfo("Unknown", None, None, None)
    case Some(q) =>
      match q.office
      case None => UserInfo(q.name, q.avatarUrl, None, None)
      case Some(o) => UserInfo(q.name, q.avatarUrl, Some(o.name), o.colorTheme)
  }

  function IndividualRow(race: RaceWithJoin): Row<UserInfo> {
    Row(race.userId, UserInfoOf(race.profile), race.scoredDistanceKm)
  }

  function ScoredDistance(race: RaceWithJoin): real { race.scoredDistanceKm }

  /** The races as the aggregation loop reads them */
  function IndividualRows(races: seq<RaceWithJoin>): seq<Row<UserInfo>> {
    Image(races, IndividualRow)
  }

  /** `useIndividualLeaderboard`: one entry per runner, largest total first */
  function IndividualLeaderboard(races: seq<RaceWithJoin>): seq<Tally<UserInfo>> {
    Board(IndividualRows(races))
  }

  /** Some race is by runner `u` */
  predicate Raced(races: seq<RaceWithJoin>, u: string) {
    exists i :: 0 <= i < |races| && races[i].userId == u
  }

  /** A key occurs among the individual rows exactly when the runner raced */
  lemma OccursIffRaced(races: seq<RaceWithJoin>, u: string)
    ensures Occurs(IndividualRows(races), u) <==> Raced(races, u)
  {
    var rows := IndividualRows(races);
    if Raced(races, u) {
      var i :| 0 <= i < |races| && races[i].userId == u;
      assert rows[i].key == u;
    }
  }

  /** The individual board is in non-increasing order of total distance */
  lemma IndividualDescending(races: seq<RaceWithJoin>)
    ensures Descending(IndividualLeaderboard(races), TotalOf)
  {
    BoardDescending(IndividualRows(races));
  }

  /** The individual board has exactly one entry per runner who raced and none for
      anybody else */
  lemma IndividualOnePerRunner(races: seq<RaceWithJoin>, u: string)
    ensures multiset(Image(IndividualLeaderboard(races), KeyOf))[u] == if Raced(races, u) then 1 else 0
  {
    BoardOnePerKey(IndividualRows(races), u);
    OccursIffRaced(races, u);
  }

  /** Each runner's entry counts the runner's races, sums their scored distances and
      takes the descriptive fields from the runner's first race */
  lemma IndividualEntries(races: seq<RaceWithJoin>)
    ensures var b := IndividualLeaderboard(races);
            forall i :: 0 <= i < |b| ==> Summarises(b[i], IndividualRows(races), b[i].key)
  {
    BoardSummarises(IndividualRows(races));
  }

  /** A runner whose first race came without a profile is listed as "Unknown" with no
      avatar and no office */
  lemma UnknownRunner(races: seq<RaceWithJoin>, i: nat, j: nat)
    requires i < |IndividualLeaderboard(races)| && j < |races|
    requires races[j].userId == IndividualLeaderboard(races)[i].key
    requires forall k :: 0 <= k < j ==> races[k].userId != races[j].userId
    requires races[j].profile.None?
    ensures IndividualLeaderboard(races)[i].info == UserInfo("Unknown", None, None, None)
  {
    var rows := IndividualRows(races);
    BoardSummarises(rows);
    assert forall k :: 0 <= k < |races| ==> rows[k].key == races[k].userId;
    assert FirstIndex(rows, races[j].userId) == j;
  }

  /** The totals of the individual board add up to the scored distance of all races */
  lemma IndividualConserves(races: seq<RaceWithJoin>)
    ensures Total(IndividualLeaderboard(races), TotalOf) == Total(races, ScoredDistance)
  {
    BoardConserves(IndividualRows(races));
    TotalImage(races, IndividualRow, ScoredDistance, DistanceOf);
  }

  /** Runners with equal totals are listed in the order of their first races */
  lemma IndividualTies(races: seq<RaceWithJoin>)
    ensures var b := IndividualLeaderboard(races);
            forall i, j :: 0 <= i < j < |b| && b[i].total == b[j].total ==>
              FirstIndex(IndividualRows(races), b[i].key) < FirstIndex(IndividualRows(races), b[j].key)
  {
    BoardTiesKeepFirstAppearance(IndividualRows(races));
  }

  // ---------------------------------------------------------- office board

  /** `offices(id, name, location, color_theme)` */
  datatype Office = Office(id: string, name: string, location: string, colorTheme: Option<string>)

  /** `profiles(office_id, offices(...))` */
  datatype OfficeProfile = OfficeProfile(officeId: Option<string>, office: Option<Office>)

  /** A race with its runner's office, as the office query returns it */
  datatype RaceWithOfficeJoin = RaceWithOfficeJoin(scoredDistanceKm: real, profile: Option<OfficeProfile>)

  /** An office entry */
  datatype OfficeEntry = OfficeEntry(
    id: string, name: string, location: string, colorTheme: Option<string>,
    total: real, races: nat, memberCount: nat)

  function OfficeTotal(e: OfficeEntry): real { e.total }
  function OfficeId(e: OfficeEntry): string { e.id }

  /** `race.profiles?.offices` */
  function OfficeOf(race: RaceWithOfficeJoin): Option<Office> {
    if race.profile.Some? then race.profile.value.office else None
  }

  /** A JavaScript-truthy optional string: present and not empty */
  predicate Truthy(s: Option<string>) {
    s.Some? && s.value != ""
  }

  /** The races the loop counts (those with an office) as the aggregation reads them */
  function OfficeRows(races: seq<RaceWithOfficeJoin>): (rows: seq<Row<Office>>)
    ensures |rows| <= |races|
  {
    if races == [] then []
    else
      var o := OfficeOf(races[0]);
      (if o.Some? then [Row(o.value.id, o.value, races[0].scoredDistanceKm)] else []) + OfficeRows(races[1..])
  }

  /** `membersPerOffice` after one race: an office seen for the first time gets an
      empty set, and a truthy `profiles.office_id` is added to the set of the race's
      office */
  function MemberStep(m: map<string, set<string>>, race: RaceWithOfficeJoin): map<string, set<string>> {
    match OfficeOf(race)
    case None => m
    case Some(o) =>
      var s := if o.id in m then m[o.id] else {};
      var id := race.profile.value.officeId;
      m[o.id := if Truthy(id) then s + {id.value} else s]
  }

  /** `membersPerOffice` after the loop */
  function MemberFold(races: seq<RaceWithOfficeJoin>): map<string, set<string>> {
    if races == [] then map[] else MemberStep(MemberFold(races[..|races| - 1]), races[|races| - 1])
  }

  /** The truthy `profiles.office_id` values of the races of office `id` */
  function MembersOf(races: seq<RaceWithOfficeJoin>, id: string): set<string> {
    if races == [] then {}
    else
      var o := OfficeOf(races[0]);
      var p := races[0].profile;
      (if o.Some? && o.value.id == id && Truthy(p.value.officeId) then {p.value.officeId.value} else {})
        + MembersOf(races[1..], id)
  }

  /** The entry of a tallied office once `member_count` is set from the member sets;
      an office without a set keeps 0 */
  function OfficeEntryOf(t: Tally<Office>, m: map<string, set<string>>): OfficeEntry {
    OfficeEntry(t.key, t.info.name, t.info.location, t.info.colorTheme, t.total, t.races,
                if t.key in m then |m[t.key]| else 0)
  }

  /** The member-count loop over all entries */
  function WithMembers(e: seq<Tally<Office>>, m: map<string, set<string>>): (r: seq<OfficeEntry>)
    ensures |r| == |e|
    ensures forall i :: 0 <= i < |e| ==> r[i] == OfficeEntryOf(e[i], m)
  {
    if e == [] then [] else [OfficeEntryOf(e[0], m)] + WithMembers(e[1..], m)
  }

  /** `useOfficeLeaderboard`: one entry per office, largest total first */
  function OfficeLeaderboard(races: seq<RaceWithOfficeJoin>): seq<OfficeEntry> {
    var g := Fold(OfficeRows(races));
    SortDescending(WithMembers(Entries(g.order, g.table), MemberFold(races)), OfficeTotal)
  }

  /** The entry the races call for under office `id`: the office fields of its first
      counted race, the sum and the number of its races, and the number of distinct
      truthy `profiles.office_id` values among them */
  ghost predicate OfficeSummarises(e: OfficeEntry, races: seq<RaceWithOfficeJoin>) {
    var rows := OfficeRows(races);
    && Occurs(rows, e.id)
    && var first := rows[FirstIndex(rows, e.id)].info;
       e == OfficeEntry(e.id, first.name, first.location, first.colorTheme,
                        Total(RowsFor(rows, e.id), DistanceOf), |RowsFor(rows, e.id)|,
                        |MembersOf(races, e.id)|)
  }

  // ------------------------------------------------- facts about appending

  lemma {:induction false} OfficeRowsAppend(a: seq<RaceWithOfficeJoin>, r: RaceWithOfficeJoin)
    ensures OfficeRows(a + [r])
            == OfficeRows(a) + (if OfficeOf(r).Some? then [Row(OfficeOf(r).value.id, OfficeOf(r).value, r.scoredDistanceKm)] else [])
  {
    if a != [] {
      OfficeRowsAppend(a[1..], r);
      assert (a + [r])[1..] == a[1..] + [r];
    }
  }

  lemma {:induction false} MembersOfAppend(a: seq<RaceWithOfficeJoin>, r: RaceWithOfficeJoin, id: string)
    ensures MembersOf(a + [r], id)
            == MembersOf(a, id)
               + (if OfficeOf(r).Some? && OfficeOf(r).value.id == id && Truthy(r.profile.value.officeId)
                  then {r.profile.value.officeId.value} else {})
  {
    if a != [] {
      MembersOfAppend(a[1..], r, id);
      assert (a + [r])[1..] == a[1..] + [r];
    }
  }

  /** An office none of whose races was counted has no members */
  lemma {:induction false} MembersOfAbsent(a: seq<RaceWithOfficeJoin>, id: string)
    requires !Occurs(OfficeRows(a), id)
    ensures MembersOf(a, id) == {}
  {
    if a != [] {
      var o := OfficeOf(a[0]);
      var rest := OfficeRows(a[1..]);
      if o.Some? {
        assert OfficeRows(a) == [Row(o.value.id, o.value, a[0].scoredDistanceKm)] + rest;
        assert OfficeRows(a)[0].key == o.value.id;
        assert (OfficeRows(a))[1..] == rest;
      } else {
        assert OfficeRows(a) == rest;
      }
      MembersOfAbsent(a[1..], id);
    }
  }

  /** An office is in the member map exactly when one of its races was counted */
  lemma OccursAppend<I>(a: seq<Row<I>>, r: seq<Row<I>>, k: string)
    requires |r| <= 1
    ensures Occurs(a + r, k) <==> Occurs(a, k) || (r != [] && r[0].key == k)
  {
    if r == [] {
      assert a + r == a;
    } else {
      assert r == [r[0]];
      FirstIndexAppend(a, r[0], k);
    }
  }

  /** One more race keeps the member map equal to the reference member sets */
  lemma MemberStepMeets(a: seq<RaceWithOfficeJoin>, r: RaceWithOfficeJoin, m: map<string, set<string>>, id: string)
    requires forall x :: x in m <==> Occurs(OfficeRows(a), x)
    requires forall x :: x in m ==> m[x] == MembersOf(a, x)
    ensures id in MemberStep(m, r) <==> Occurs(OfficeRows(a + [r]), id)
    ensures id in MemberStep(m, r) ==> MemberStep(m, r)[id] == MembersOf(a + [r], id)
  {
    OfficeRowsAppend(a, r);
    MembersOfAppend(a, r, id);
    var o := OfficeOf(r);
    OccursAppend(OfficeRows(a), if o.Some? then [Row(o.value.id, o.value, r.scoredDistanceKm)] else [], id);
    if o.Some? && o.value.id == id && id !in m {
      MembersOfAbsent(a, id);
    }
  }

  /** `membersPerOffice` holds a set exactly for each office with a counted race, and
      that set is the office's truthy `profiles.office_id` values */
  lemma {:induction false} MemberFoldMeets(races: seq<RaceWithOfficeJoin>)
    ensures forall x :: x in MemberFold(races) <==> Occurs(OfficeRows(races), x)
    ensures forall x :: x in MemberFold(races) ==> MemberFold(races)[x] == MembersOf(races, x)
  {
    if races != [] {
      var a, r := races[..|races| - 1], races[|races| - 1];
      assert races == a + [r];
      MemberFoldMeets(a);
      forall x
        ensures x in MemberFold(races) <==> Occurs(OfficeRows(races), x)
        ensures x in MemberFold(races) ==> MemberFold(races)[x] == MembersOf(races, x)
      {
        MemberStepMeets(a, r, MemberFold(a), x);
      }
    }
  }

  // ------------------------------------------------------- office entries

  /** Setting member counts keeps the totals */
  lemma {:induction false} WithMembersTotal(e: seq<Tally<Office>>, m: map<string, set<string>>)
    ensures Total(WithMembers(e, m), OfficeTotal) == Total(e, TotalOf)
  {
    if e != [] {
      WithMembersTotal(e[1..], m);
      assert WithMembers(e, m)[1..] == WithMembers(e[1..], m);
    }
  }

  /** Every entry before sorting summarises its office */
  lemma OfficeEntriesSummarise(races: seq<RaceWithOfficeJoin>)
    ensures var g := Fold(OfficeRows(races));
            forall x :: x in WithMembers(Entries(g.order, g.table), MemberFold(races)) ==> OfficeSummarises(x, races)
  {
    var g := Fold(OfficeRows(races));
    var e := Entries(g.order, g.table);
    var w := WithMembers(e, MemberFold(races));
    EntriesSummarise(OfficeRows(races));
    MemberFoldMeets(races);
    forall x | x in w
      ensures OfficeSummarises(x, races)
    {
      var i :| 0 <= i < |w| && w[i] == x;
      assert e[i] in e;
    }
  }

  /** The office board is in non-increasing order of total distance */
  lemma OfficeDescending(races: seq<RaceWithOfficeJoin>)
    ensures Descending(OfficeLeaderboard(races), OfficeTotal)
  {
    var g := Fold(OfficeRows(races));
    SortIsDescending(WithMembers(Entries(g.order, g.table), MemberFold(races)), OfficeTotal);
  }

  /** Each office entry counts the office's races, sums their scored distances, takes
      the office fields from its first counted race and counts its distinct truthy
      `profiles.office_id` values */
  lemma OfficeEntries(races: seq<RaceWithOfficeJoin>)
    ensures forall i :: 0 <= i < |OfficeLeaderboard(races)| ==> OfficeSummarises(OfficeLeaderboard(races)[i], races)
  {
    var g := Fold(OfficeRows(races));
    var w := WithMembers(Entries(g.order, g.table), MemberFold(races));
    var b := OfficeLeaderboard(races);
    SortPermutes(w, OfficeTotal);
    OfficeEntriesSummarise(races);
    forall i | 0 <= i < |b|
      ensures OfficeSummarises(b[i], races)
    {
      assert b[i] in multiset(b);
      assert b[i] in w;
    }
  }

  /** Before sorting, the entries stand in the order of the offices' first races */
  lemma EntryIdsInOrder(races: seq<RaceWithOfficeJoin>)
    ensures var g := Fold(OfficeRows(races));
            Image(WithMembers(Entries(g.order, g.table), MemberFold(races)), OfficeId) == g.order
  {
  }

  /** The office board has exactly one entry per office with a counted race and none
      for any other id */
  lemma OfficeOnePerOffice(races: seq<RaceWithOfficeJoin>, id: string)
    ensures multiset(Image(OfficeLeaderboard(races), OfficeId))[id]
            == if Occurs(OfficeRows(races), id) then 1 else 0
  {
    var g := Fold(OfficeRows(races));
    var w := WithMembers(Entries(g.order, g.table), MemberFold(races));
    SortImage(w, OfficeTotal, OfficeId);
    EntryIdsInOrder(races);
    DistinctOnce(g.order, id);
    FoldSummarises(OfficeRows(races));
  }

  /** The totals of the office board add up to the scored distance of the races that
      have an office */
  lemma OfficeConserves(races: seq<RaceWithOfficeJoin>)
    ensures Total(OfficeLeaderboard(races), OfficeTotal) == Total(OfficeRows(races), DistanceOf)
  {
    var g := Fold(OfficeRows(races));
    var e := Entries(g.order, g.table);
    SortKeepsTotal(WithMembers(e, MemberFold(races)), OfficeTotal);
    WithMembersTotal(e, MemberFold(races));
    FoldConserves(OfficeRows(races));
  }

  /** Before sorting, the office entries are ranked by their offices' first races */
  lemma OfficeEntriesRanked(races: seq<RaceWithOfficeJoin>, rank: OfficeEntry -> int)
    requires forall e :: rank(e) == FirstIndex(OfficeRows(races), e.id)
    ensures var g := Fold(OfficeRows(races));
            TiesRanked(WithMembers(Entries(g.order, g.table), MemberFold(races)), OfficeTotal, rank)
  {
    var g := Fold(OfficeRows(races));
    var w := WithMembers(Entries(g.order, g.table), MemberFold(races));
    FoldOrder(OfficeRows(races));
    EntryIdsInOrder(races);
    forall i, j | 0 <= i < j < |w| && OfficeTotal(w[i]) == OfficeTotal(w[j])
      ensures rank(w[i]) < rank(w[j])
    {
      assert Image(w, OfficeId)[i] == w[i].id && Image(w, OfficeId)[j] == w[j].id;
    }
  }

  /** Offices with equal totals are listed in the order of their first counted races */
  lemma OfficeTies(races: seq<RaceWithOfficeJoin>)
    ensures var b := OfficeLeaderboard(races);
            forall i, j :: 0 <= i < j < |b| && b[i].total == b[j].total ==>
              FirstIndex(OfficeRows(races), b[i].id) < FirstIndex(OfficeRows(races), b[j].id)
  {
    var g := Fold(OfficeRows(races));
    var w := WithMembers(Entries(g.order, g.table), MemberFold(races));
    var rank := (e: OfficeEntry) => FirstIndex(OfficeRows(races), e.id);
    OfficeEntriesRanked(races, rank);
    SortTiesRanked(w, OfficeTotal, rank);
  }

  /** A race whose runner has no office changes nothing */
  lemma NoOfficeSkipped(races: seq<RaceWithOfficeJoin>, r: RaceWithOfficeJoin)
    requires OfficeOf(r).None?
    ensures OfficeLeaderboard(races + [r]) == OfficeLeaderboard(races)
  {
    OfficeRowsAppend(races, r);
    assert OfficeRows(races + [r]) == OfficeRows(races);
    assert (races + [r])[..|races|] == races;
  }

  /** The join gives every race the office its profile points to */
  predicate Joined(races: seq<RaceWithOfficeJoin>) {
    forall i :: 0 <= i < |races| && OfficeOf(races[i]).Some? ==>
      races[i].profile.value.officeId == Some(OfficeOf(races[i]).value.id)
  }

  /** The only member id an office can collect from joined rows is its own */
  lemma {:induction false} JoinedMembers(races: seq<RaceWithOfficeJoin>, id: string)
    requires Joined(races)
    ensures MembersOf(races, id) <= {id}
  {
    if races != [] {
      assert Joined(races[1..]) by {
        forall i | 0 <= i < |races[1..]| && OfficeOf(races[1..][i]).Some?
          ensures races[1..][i].profile.value.officeId == Some(OfficeOf(races[1..][i]).value.id)
        {
          assert races[1..][i] == races[i + 1];
        }
      }
      JoinedMembers(races[1..], id);
    }
  }

  /** As written, `member_count` adds the office's own id rather than the runner's,
      so with the join's office ids every office counts at most one member */
  lemma MemberCountAtMostOne(races: seq<RaceWithOfficeJoin>)
    requires Joined(races)
    ensures forall i :: 0 <= i < |OfficeLeaderboard(races)| ==> OfficeLeaderboard(races)[i].memberCount <= 1
  {
    var b := OfficeLeaderboard(races);
    OfficeEntries(races);
    forall i | 0 <= i < |b|
      ensures b[i].memberCount <= 1
    {
      var id := b[i].id;
      JoinedMembers(races, id);
      var s := MembersOf(races, id);
      if id in s {
        assert s == {id};
      } else {
        assert s == {};
      }
    }
  }
}
