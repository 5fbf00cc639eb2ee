/** The `checkin` table and the handlers of `checkin_routes.py`: a presence
    record per (user, spot) that is open while its checkout time is null. */
module Checkins {
  import opened Api
  import Seqs

  /** The `CheckinCreate` request body. */
  datatype CheckinCreate = CheckinCreate(
    studyspot_id: int, user_id: int,
    checkin_timestamp: Option<Stamp>, checkout_timestamp: Option<Stamp>)

  /** A row of the `checkin` table; also the `CheckinOut` response. */
  datatype Checkin = Checkin(
    checkin_id: nat, studyspot_id: int, user_id: int,
    checkin_timestamp: Option<Stamp>, checkout_timestamp: Option<Stamp>)

  /** The body `get_active_checkins` answers with. */
  datatype ActiveCheckins = ActiveCheckins(studyspot_id: int, active_checkins: nat)

  const AlreadyCheckedIn := Error(400, "User already checked in at this studyspot")
  const NoActiveCheckin := Error(404, "No active check-in found for user at this study spot")

  function Id(c: Checkin): int { c.checkin_id }

  predicate IsOpen(c: Checkin)
  {
    c.checkout_timestamp.None?
  }

  predicate IsOpenFor(c: Checkin, user_id: int, studyspot_id: int)
  {
    c.user_id == user_id && c.studyspot_id == studyspot_id && IsOpen(c)
  }

  /** The filter of the check-in and check-out queries, as a function value. */
  function OpenFor(user_id: int, studyspot_id: int): Checkin -> bool
  {
    (c: Checkin) => IsOpenFor(c, user_id, studyspot_id)
  }

  /** The filter of the active-count query. */
  function OpenAt(studyspot_id: int): Checkin -> bool
  {
    (c: Checkin) => c.studyspot_id == studyspot_id && IsOpen(c)
  }

  ghost predicate HasOpen(rows: seq<Checkin>, user_id: int, studyspot_id: int)
  {
    exists i :: 0 <= i < |rows| && IsOpenFor(rows[i], user_id, studyspot_id)
  }

  /** A user has at most one open check-in per spot. */
  ghost predicate AtMostOneOpen(rows: seq<Checkin>)
  {
    forall i, j :: 0 <= i < j < |rows| && IsOpen(rows[i]) && IsOpen(rows[j]) ==>
      rows[i].user_id != rows[j].user_id || rows[i].studyspot_id != rows[j].studyspot_id
  }

  /** Number of open check-ins at a spot. */
  function ActiveCount(rows: seq<Checkin>, studyspot_id: int): (n: nat)
    ensures n <= |rows|
    ensures n == 0 <==> forall i :: 0 <= i < |rows| ==> !(rows[i].studyspot_id == studyspot_id && IsOpen(rows[i]))
  {
    var open := Seqs.Filter(rows, OpenAt(studyspot_id));
    assert open != [] ==> open[0] in rows;
    |open|
  }

  /** The row `db.add` inserts: the payload's fields under the given id. */
  function NewRow(id: nat, c: CheckinCreate): Checkin
  {
    Checkin(id, c.studyspot_id, c.user_id, c.checkin_timestamp, c.checkout_timestamp)
  }

  /** The table after closing, at time `now`, every open check-in of `user_id`
      at `studyspot_id` (there is at most one). */
  function CloseOpen(rows: seq<Checkin>, user_id: int, studyspot_id: int, now: Stamp): (r: seq<Checkin>)
    ensures |r| == |rows|
    ensures !HasOpen(r, user_id, studyspot_id)
    ensures forall i :: 0 <= i < |rows| && !IsOpenFor(rows[i], user_id, studyspot_id) ==> r[i] == rows[i]
    ensures forall i :: 0 <= i < |rows| && IsOpenFor(rows[i], user_id, studyspot_id) ==>
      r[i].checkout_timestamp == Some(now) &&
      r[i].(checkout_timestamp := None) == rows[i]
    ensures AtMostOneOpen(rows) ==> AtMostOneOpen(r)
  {
    seq(|rows|, i requires 0 <= i < |rows| =>
      if IsOpenFor(rows[i], user_id, studyspot_id) then rows[i].(checkout_timestamp := Some(now)) else rows[i])
  }

  /** What `checkin_user` decides, as the handler evidently intends it: refuse
      while an open check-in exists for the pair, otherwise the new row. */
  function Admit(rows: seq<Checkin>, nextId: nat, c: CheckinCreate): (r: Result<Checkin>)
    ensures r.Err? <==> HasOpen(rows, c.user_id, c.studyspot_id)
    ensures r.Err? ==> r.error == AlreadyCheckedIn
    ensures r.Ok? ==> r.value == NewRow(nextId, c)
  {
    if Seqs.FirstIndex(rows, OpenFor(c.user_id, c.studyspot_id)).Some? then Err(AlreadyCheckedIn)
    else Ok(NewRow(nextId, c))
  }

  /** `checkin_user` as written: the query names `data`, which is not defined
      in the module, so every request ends in an uncaught `NameError`. */
  function CheckInAsWritten(rows: seq<Checkin>, c: CheckinCreate): (r: Result<Checkin>)
    ensures r == Err(InternalServerError)
  {
    Err(InternalServerError)
  }

  /** The first check-in on an empty table is refused as written and admitted
      as intended. */
  lemma CheckInNameError(c: CheckinCreate)
    ensures CheckInAsWritten([], c).Err? && Admit([], 1, c).Ok?
  {
  }

  /** An append gives a spot one more open check-in exactly when the new row is
      open and at that spot. */
  lemma CheckInCount(rows: seq<Checkin>, id: nat, c: CheckinCreate, studyspot_id: int)
    ensures ActiveCount(rows + [NewRow(id, c)], studyspot_id)
         == ActiveCount(rows, studyspot_id)
            + (if c.studyspot_id == studyspot_id && c.checkout_timestamp.None? then 1 else 0)
  {
    Seqs.FilterAppend(rows, NewRow(id, c), OpenAt(studyspot_id));
  }

  /** Closing the check-in of a pair takes one from that spot's count and
      leaves every other spot's count as it was. */
  lemma CheckOutCount(rows: seq<Checkin>, user_id: int, spot: int, now: Stamp, studyspot_id: int)
    requires AtMostOneOpen(rows)
    ensures ActiveCount(CloseOpen(rows, user_id, spot, now), studyspot_id)
         == ActiveCount(rows, studyspot_id)
            - (if spot == studyspot_id && HasOpen(rows, user_id, spot) then 1 else 0)
  {
    var closed := CloseOpen(rows, user_id, spot, now);
    if HasOpen(rows, user_id, spot) {
      var i :| 0 <= i < |rows| && IsOpenFor(rows[i], user_id, spot);
      var row := rows[i].(checkout_timestamp := Some(now));
      assert closed == rows[i := row];
      Seqs.CountUpdate(rows, i, row, OpenAt(studyspot_id));
    } else {
      assert closed == rows;
    }
  }

  /** A check-in (with no checkout time in the payload) followed by the
      check-out of the same pair leaves every spot's active count unchanged. */
  lemma CheckInThenOutRestoresCount(rows: seq<Checkin>, id: nat, c: CheckinCreate, now: Stamp, studyspot_id: int)
    requires !HasOpen(rows, c.user_id, c.studyspot_id)
    requires c.checkout_timestamp.None?
    ensures ActiveCount(CloseOpen(rows + [NewRow(id, c)], c.user_id, c.studyspot_id, now), studyspot_id)
         == ActiveCount(rows, studyspot_id)
  {
    var row := NewRow(id, c);
    var closedRow := row.(checkout_timestamp := Some(now));
    assert CloseOpen(rows + [row], c.user_id, c.studyspot_id, now) == rows + [closedRow];
    Seqs.FilterAppend(rows, closedRow, OpenAt(studyspot_id));
  }

  class CheckinTable {
    var rows: seq<Checkin>
    /** The next value of the auto-increment primary key. */
    var nextId: nat

    ghost predicate Valid()
      reads this
    {
      && 1 <= nextId
      && Seqs.KeysWithin(rows, Id, 1, nextId)
      && Seqs.StrictlyIncreasing(rows, Id)
      && AtMostOneOpen(rows)
    }

    constructor ()
      ensures Valid() && rows == [] && nextId == 1
    {
      rows := [];
      nextId := 1;
    }

    /** `checkin_user`, with the payload read where the source writes `data`. */
    method CheckIn(c: CheckinCreate) returns (r: Result<Checkin>)
      requires Valid()
      modifies this
      ensures Valid()
      ensures r == Admit(old(rows), old(nextId), c)
      ensures HasOpen(old(rows), c.user_id, c.studyspot_id) ==>
        r == Err(AlreadyCheckedIn) && rows == old(rows) && nextId == old(nextId)
      ensures !HasOpen(old(rows), c.user_id, c.studyspot_id) ==>
        && r == Ok(NewRow(old(nextId), c))
        && rows == old(rows) + [r.value]
        && nextId == old(nextId) + 1
      ensures r.Ok? ==> forall i :: 0 <= i < |old(rows)| ==> old(rows)[i].checkin_id != r.value.checkin_id
    {
      r := Admit(rows, nextId, c);
      if r.Ok? {
        rows := rows + [r.value];
        nextId := nextId + 1;
      }
    }

    /** `checkout_user`: closes, at time `now`, the open check-in of the pair;
        404 when there is none. */
    method CheckOut(user_id: int, studyspot_id: int, now: Stamp) returns (r: Result<Checkin>)
      requires Valid()
      modifies this
      ensures Valid()
      ensures nextId == old(nextId)
      ensures rows == CloseOpen(old(rows), user_id, studyspot_id, now)
      ensures !HasOpen(old(rows), user_id, studyspot_id) ==>
        r == Err(NoActiveCheckin) && rows == old(rows)
      ensures HasOpen(old(rows), user_id, studyspot_id) ==>
        r.Ok? &&
        (exists i :: 0 <= i < |rows| && IsOpenFor(old(rows)[i], user_id, studyspot_id) &&
           r.value == rows[i] == old(rows)[i].(checkout_timestamp := Some(now)))
      ensures forall i :: 0 <= i < |rows| && !IsOpenFor(old(rows)[i], user_id, studyspot_id) ==>
        rows[i] == old(rows)[i]
    {
      var found := Seqs.FirstIndex(rows, OpenFor(user_id, studyspot_id));
      if found.None? {
        assert CloseOpen(rows, user_id, studyspot_id, now) == rows;
        return Err(NoActiveCheckin);
      }
      var i := found.value;
      var row := rows[i].(checkout_timestamp := Some(now));
      ghost var before := rows;
      rows := rows[i := row];
      assert rows == CloseOpen(before, user_id, studyspot_id, now);
      r := Ok(row);
    }

    /** `get_active_checkins`: the spot's open check-ins, counted; reads only. */
    method GetActiveCheckins(studyspot_id: int) returns (r: ActiveCheckins)
      ensures r.studyspot_id == studyspot_id
      ensures r.active_checkins == ActiveCount(rows, studyspot_id)
    {
      r := ActiveCheckins(studyspot_id, ActiveCount(rows, studyspot_id));
    }
  }

  /** A client that checks a user in and then out again: when the check-in
      succeeds, so does the check-out, and no spot's active count moves. */
  method CheckInThenOut(t: CheckinTable, c: CheckinCreate, now: Stamp)
    returns (checkin: Result<Checkin>, checkout: Result<Checkin>)
    requires t.Valid() && c.checkout_timestamp.None?
    modifies t
    ensures t.Valid()
    ensures checkin.Ok? ==> checkout.Ok?
    ensures checkin.Ok? ==> forall s :: ActiveCount(t.rows, s) == ActiveCount(old(t.rows), s)
  {
    ghost var before := t.rows;
    checkin := t.CheckIn(c);
    if checkin.Ok? {
      assert IsOpenFor(t.rows[|t.rows| - 1], c.user_id, c.studyspot_id);
    }
    checkout := t.CheckOut(c.user_id, c.studyspot_id, now);
    if checkin.Ok? {
      forall s ensures ActiveCount(t.rows, s) == ActiveCount(before, s) {
        CheckInThenOutRestoresCount(before, checkin.value.checkin_id, c, now, s);
      }
    }
  }
}
