/** The `study_spots` table and the handlers of `studyspots_routes.py`. */
module StudySpots {
  import opened Api
  import Seqs

  /** `SpotStatus`. */
  datatype SpotStatus = Pending | Active | Closed

  /** The `StudySpotCreate` request body after validation. Coordinates are
      carried as given and never computed with. */
  datatype StudySpotCreate = StudySpotCreate(
    name: string, place_id: string, latitude: real, longitude: real,
    status: SpotStatus, description: Option<string>)

  /** A row of the `study_spots` table; also the `StudySpotOut` response. */
  datatype StudySpot = StudySpot(
    id: nat, name: string, place_id: string, latitude: real, longitude: real,
    status: SpotStatus, description: Option<string>)

  const SpotAlreadyExists := Error(400, "Study spot already exists")

  /** Builds the request body from the submitted fields; an omitted `status`
      or `description` takes the schema's default. */
  function ParseSpotCreate(name: string, place_id: string, latitude: real, longitude: real,
                           status: Option<SpotStatus>, description: Option<string>): (p: StudySpotCreate)
    ensures status.None? ==> p.status == Pending
    ensures status.Some? ==> p.status == status.value
    ensures p.name == name && p.place_id == place_id && p.description == description
    ensures p.latitude == latitude && p.longitude == longitude
  {
    StudySpotCreate(name, place_id, latitude, longitude,
                    match status case None => Pending case Some(s) => s, description)
  }

  function Id(s: StudySpot): int { s.id }

  /** The row `db.add` inserts for a request that passed the check. */
  function NewSpot(id: nat, p: StudySpotCreate): StudySpot
  {
    StudySpot(id, p.name, p.place_id, p.latitude, p.longitude, p.status, p.description)
  }

  ghost predicate HasPlace(rows: seq<StudySpot>, place_id: string)
  {
    exists i :: 0 <= i < |rows| && rows[i].place_id == place_id
  }

  ghost predicate HasId(rows: seq<StudySpot>, id: int)
  {
    exists i :: 0 <= i < |rows| && rows[i].id == id
  }

  /** The `unique=True` constraint on `place_id`. */
  ghost predicate PlacesDistinct(rows: seq<StudySpot>)
  {
    forall i, j :: 0 <= i < j < |rows| ==> rows[i].place_id != rows[j].place_id
  }

  class StudySpotTable {
    var rows: seq<StudySpot>
    /** The next value of the auto-increment primary key. */
    var nextId: nat

    ghost predicate Valid()
      reads this
    {
      && 1 <= nextId
      && Seqs.KeysWithin(rows, Id, 1, nextId)
      && Seqs.StrictlyIncreasing(rows, Id)
      && PlacesDistinct(rows)
    }

    constructor ()
      ensures Valid() && rows == [] && nextId == 1
    {
      rows := [];
      nextId := 1;
    }

    /** `create_study_spot`: refuses a `place_id` already stored, otherwise
        inserts the spot under a fresh id and returns it. */
    method Create(p: StudySpotCreate) returns (r: Result<StudySpot>)
      requires Valid()
      modifies this
      ensures Valid()
      ensures HasPlace(old(rows), p.place_id) ==>
        r == Err(SpotAlreadyExists) && rows == old(rows) && nextId == old(nextId)
      ensures !HasPlace(old(rows), p.place_id) ==>
        && rows == old(rows) + [NewSpot(old(nextId), p)]
        && nextId == old(nextId) + 1
        && r == Ok(NewSpot(old(nextId), p))
      ensures r.Ok? ==> !HasId(old(rows), r.value.id)
    {
      var existing := Seqs.FirstIndex(rows, (s: StudySpot) => s.place_id == p.place_id);
      if existing.Some? {
        return Err(SpotAlreadyExists);
      }
      var row := NewSpot(nextId, p);
      rows := rows + [row];
      nextId := nextId + 1;
      r := Ok(row);
    }

    /** `list_study_spots`: every stored spot, in storage order. */
    method List() returns (out: seq<StudySpot>)
      ensures out == rows
    {
      out := rows;
    }
  }
}
