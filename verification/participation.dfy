/** The participation toggle on an event: the participation table is a map from
    (event, user) to a status, so the table holds at most one row per pair. Toggling
    the status a row already has removes the row; any other toggle writes the row. */
module Participation {
  import opened Wrappers

  /** The primary key of a participation row */
  datatype Key = Key(eventId: string, userId: string)

  /** A participation row as the upsert returns it */
  datatype Row = Row(eventId: string, userId: string, status: string)

  /** The table: the status of each (event, user) pair that has a row */
  type Table = map<Key, string>

  /** The one error the toggle raises itself */
  datatype ToggleError = NotAuthenticated

  /** The table after the toggle, and the value the mutation resolves with: no row
      after a removal, the written row otherwise */
  datatype Outcome = Outcome(table: Table, row: Option<Row>)

  /** The row the signed-in user has for the event */
  function KeyOf(user: Option<string>, eventId: string): Key
    requires user.Some?
  {
    Key(eventId, user.value)
  }

  /** `useToggleParticipation`'s mutation for the signed-in user `user` (none when
      nobody is signed in). It fails before touching the table when nobody is signed
      in; toggling the status the row already has removes the row and resolves with no
      row; any other toggle leaves the row with the requested status and resolves with
      it; no other row changes. */
  function Toggle(t: Table, user: Option<string>, eventId: string, status: string): (r: Result<Outcome, ToggleError>)
    ensures user.None? <==> r == Failure(NotAuthenticated)
    ensures user.Some? && KeyOf(user, eventId) in t && t[KeyOf(user, eventId)] == status ==>
              r.Success? && KeyOf(user, eventId) !in r.value.table && r.value.row == None
    ensures user.Some? && !(KeyOf(user, eventId) in t && t[KeyOf(user, eventId)] == status) ==>
              && r.Success?
              && KeyOf(user, eventId) in r.value.table && r.value.table[KeyOf(user, eventId)] == status
              && r.value.row == Some(Row(eventId, user.value, status))
    ensures r.Success? ==> forall k :: k != KeyOf(user, eventId) ==>
              (k in r.value.table <==> k in t) && (k in t ==> r.value.table[k] == t[k])
  {
    match user
    case None => Failure(NotAuthenticated)
    case Some(u) =>
      var k := Key(eventId, u);
      if k in t && t[k] == status then Success(Outcome(map x | x in t && x != k :: t[x], None))
      else Success(Outcome(t[k := status], Some(Row(eventId, u, status))))
  }

  /** Toggling the same status twice, starting without a row, gives the table back */
  lemma ToggleTwiceRestores(t: Table, u: string, eventId: string, status: string)
    requires Key(eventId, u) !in t
    ensures var once := Toggle(t, Some(u), eventId, status).value.table;
            Toggle(once, Some(u), eventId, status).value.table == t
  {
    var once := Toggle(t, Some(u), eventId, status).value.table;
    var twice := Toggle(once, Some(u), eventId, status).value.table;
    assert twice.Keys == t.Keys;
  }

  /** Switching from one status to another leaves the single row of the pair holding
      the new status, whatever else the table holds */
  lemma SwitchKeepsOneRow(t: Table, u: string, eventId: string, from: string, to: string)
    requires Key(eventId, u) in t && t[Key(eventId, u)] == from && from != to
    ensures var r := Toggle(t, Some(u), eventId, to).value.table;
            r.Keys == t.Keys && r[Key(eventId, u)] == to
  {
  }
}
