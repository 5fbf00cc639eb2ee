/** The `users` table and the handlers of `users_routes.py`. */
module Users {
  import opened Api
  import Seqs

  /** `UserRole`. */
  datatype Role = Student | Business

  /** The `UserCreate` request body after validation: `email` is the
      address as the framework's `EmailStr` type has normalised it. */
  datatype UserCreate = UserCreate(name: string, email: string, password: string, role: Role)

  /** A row of the `users` table. */
  datatype User = User(id: nat, name: string, email: string, password: string, role: Role)

  /** The `UserOut` response model: a user without the password. */
  datatype UserOut = UserOut(id: nat, name: string, email: string, role: Role)

  const EmailRegistered := Error(400, "Email already registered")

  function Id(u: User): int { u.id }

  function ToOut(u: User): (o: UserOut)
    ensures o.id == u.id && o.name == u.name && o.email == u.email && o.role == u.role
  {
    UserOut(u.id, u.name, u.email, u.role)
  }

  /** The row `db.add` inserts for a request that passed the checks. */
  function NewUser(id: nat, u: UserCreate): User
  {
    User(id, u.name, u.email, u.password, u.role)
  }

  ghost predicate HasEmail(rows: seq<User>, email: string)
  {
    exists i :: 0 <= i < |rows| && rows[i].email == email
  }

  ghost predicate HasId(rows: seq<User>, id: int)
  {
    exists i :: 0 <= i < |rows| && rows[i].id == id
  }

  /** The `unique=True` constraint on `email`. */
  ghost predicate EmailsDistinct(rows: seq<User>)
  {
    forall i, j :: 0 <= i < j < |rows| ==> rows[i].email != rows[j].email
  }

  /** The display name of user `id`: what `review.user.name` yields, or
      `None` when no such user is stored. */
  function NameOf(rows: seq<User>, id: int): (r: Option<string>)
    ensures r.None? <==> !HasId(rows, id)
    ensures r.Some? ==> exists i :: 0 <= i < |rows| && rows[i].id == id && rows[i].name == r.value
  {
    match Seqs.FirstIndex(rows, (u: User) => u.id == id)
    case None => None
    case Some(i) => Some(rows[i].name)
  }

  class UserTable {
    var rows: seq<User>
    /** The next value of the auto-increment primary key. */
    var nextId: nat

    ghost predicate Valid()
      reads this
    {
      && 1 <= nextId
      && Seqs.KeysWithin(rows, Id, 1, nextId)
      && Seqs.StrictlyIncreasing(rows, Id)
      && EmailsDistinct(rows)
    }

    constructor ()
      ensures Valid() && rows == [] && nextId == 1
    {
      rows := [];
      nextId := 1;
    }

    /** `create_user`: refuses an email that is already registered, otherwise
        inserts the user under a fresh id and answers without the password. */
    method Create(u: UserCreate) returns (r: Result<UserOut>)
      requires Valid()
      modifies this
      ensures Valid()
      ensures HasEmail(old(rows), u.email) ==>
        r == Err(EmailRegistered) && rows == old(rows) && nextId == old(nextId)
      ensures !HasEmail(old(rows), u.email) ==>
        && rows == old(rows) + [NewUser(old(nextId), u)]
        && nextId == old(nextId) + 1
        && r == Ok(ToOut(NewUser(old(nextId), u)))
      ensures r.Ok? ==> !HasId(old(rows), r.value.id)
    {
      var existing := Seqs.FirstIndex(rows, (x: User) => x.email == u.email);
      if existing.Some? {
        return Err(EmailRegistered);
      }
      var row := NewUser(nextId, u);
      rows := rows + [row];
      nextId := nextId + 1;
      r := Ok(ToOut(row));
    }

    /** `list_users`: every stored user, in storage order, without passwords. */
    method List() returns (out: seq<UserOut>)
      ensures |out| == |rows|
      ensures forall i :: 0 <= i < |rows| ==> out[i] == ToOut(rows[i])
    {
      out := seq(|rows|, i requires 0 <= i < |rows| reads this => ToOut(rows[i]));
    }
  }
}
