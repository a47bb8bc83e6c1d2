/**
 * The older user service: create with a unique email, patch the name and
 * email of a stored user, delete and look up by id. It takes its ids as
 * given; the email uniqueness the table promises is kept by every write.
 */
module LegacyUserService {
  import opened Common
  import opened Rows
  import opened Entities
  import opened Store

  /** `findById`: the stored user with that id, NotFound otherwise. */
  function FindById(t: Tables, id: int): (r: Result<User>)
    ensures r.Err? <==> !UserExists(t, id)
    ensures r.Err? ==> r.error == NotFound
    ensures r.Ok? ==> r.value in t.users && r.value.id == id
  {
    match UserById(t, id)
    case None => Err(NotFound)
    case Some(u) => Ok(u)
  }

  /** Every field a patch carries is filled in: a present name or email must not be blank. */
  predicate PatchFieldsValid(patch: User) {
    (patch.name.Some? ==> !IsBlank(patch.name.value)) && (patch.email.Some? ==> !IsBlank(patch.email.value))
  }

  /** The user after a patch: each non-null field of the patch replaces the stored one. */
  function Patched(existing: User, patch: User): (r: User)
    ensures r.id == existing.id
    ensures r.name == if patch.name.Some? then patch.name else existing.name
    ensures r.email == if patch.email.Some? then patch.email else existing.email
  {
    var named := if patch.name.Some? then existing.(name := patch.name) else existing;
    if patch.email.Some? then named.(email := patch.email) else named
  }

  /** Applying the same patch twice is applying it once. */
  lemma PatchIdempotent(existing: User, patch: User)
    ensures Patched(Patched(existing, patch), patch) == Patched(existing, patch)
  {
  }

  /** A patch without fields leaves the user as stored. */
  lemma EmptyPatchIsIdentity(existing: User, id: int)
    ensures Patched(existing, User(id, None, None)) == existing
  {
  }

  /** A valid patch of a user whose fields are filled in leaves them filled in. */
  lemma ValidPatchKeepsFilled(existing: User, patch: User)
    requires PatchFieldsValid(patch) && IsFilled(existing.name) && IsFilled(existing.email)
    ensures IsFilled(Patched(existing, patch).name) && IsFilled(Patched(existing, patch).email)
  {
  }

  class LegacyUserService {
    const db: Db

    constructor (db: Db)
      ensures this.db == db
    {
      this.db := db;
    }

    /** `createUser`: an email some user already holds is a Conflict; otherwise the user is stored under a fresh id. */
    method CreateUser(user: User) returns (r: Result<User>)
      requires db.Valid()
      modifies db
      ensures db.Valid()
      ensures r.Err? <==> EmailTaken(old(db.t.users), user.email)
      ensures r.Err? ==> r.error == Conflict && db.t == old(db.t) && db.nextId == old(db.nextId)
      ensures r.Ok? ==> r.value == user.(id := old(db.nextId))
      ensures r.Ok? ==> db.t == old(db.t).(users := old(db.t.users) + [r.value]) && db.nextId == old(db.nextId) + 1
      ensures r.Ok? ==> UserById(db.t, r.value.id) == Some(r.value)
      ensures EmailsUnique(old(db.t.users)) ==> EmailsUnique(db.t.users)
    {
      if EmailTaken(db.t.users, user.email) {
        return Err(Conflict);
      }
      if EmailsUnique(db.t.users) {
        InsertKeepsEmailsUnique(db.t.users, user.(id := db.nextId));
      }
      var saved := db.InsertUser(user.(id := 0));
      r := Ok(saved);
    }

    /**
     * `updateUser`: the user must exist (NotFound, before any field is
     * looked at); then the name and the email are taken over one at a time,
     * a blank one being a Validation error and an email held by another
     * user a Conflict. Keeping one's own email is allowed. Nothing is
     * stored unless every check passes.
     */
    method UpdateUser(id: int, patch: User) returns (r: Result<User>)
      requires db.Valid()
      modifies db
      ensures db.Valid()
      ensures r.Err? <==> (|| !UserExists(old(db.t), id)
                           || !PatchFieldsValid(patch)
                           || (patch.email.Some? && EmailTakenByOther(old(db.t.users), patch.email, id)))
      ensures r.Err? ==> r.error == (if !UserExists(old(db.t), id) then NotFound else if !PatchFieldsValid(patch) then Validation else Conflict)
      ensures r.Err? ==> db.t == old(db.t)
      ensures r.Ok? ==> r.value == Patched(UserById(old(db.t), id).value, patch) && r.value.id == id
      ensures r.Ok? ==> db.t == old(db.t).(users := Replace(old(db.t.users), UserKey, r.value)) && UserById(db.t, id) == Some(r.value)
      ensures db.nextId == old(db.nextId)
      ensures EmailsUnique(old(db.t.users)) ==> EmailsUnique(db.t.users)
    {
      var found := UserById(db.t, id);
      if found.None? {
        return Err(NotFound);
      }
      var user := found.value;
      if patch.name.Some? {
        if IsBlank(patch.name.value) {
          return Err(Validation);
        }
        user := user.(name := patch.name);
      }
      if patch.email.Some? {
        if IsBlank(patch.email.value) {
          return Err(Validation);
        }
        if EmailTakenByOther(db.t.users, patch.email, id) {
          return Err(Conflict);
        }
        user := user.(email := patch.email);
      }
      assert user == Patched(found.value, patch);
      if EmailsUnique(db.t.users) {
        ReplaceKeepsEmailsUnique(db.t.users, found.value, user);
      }
      db.UpdateUser(user);
      r := Ok(user);
    }

    /** `deleteUser`: an absent user is NotFound; otherwise the user's row is removed. */
    method DeleteUser(id: int) returns (r: Outcome)
      requires db.Valid()
      modifies db
      ensures db.Valid()
      ensures r == Fail(NotFound) <==> !UserExists(old(db.t), id)
      ensures r == Pass <==> UserExists(old(db.t), id)
      ensures r.Fail? ==> db.t == old(db.t)
      ensures r == Pass ==> db.t == old(db.t).(users := Remove(old(db.t.users), UserKey, id)) && !UserExists(db.t, id)
      ensures db.nextId == old(db.nextId)
      ensures EmailsUnique(old(db.t.users)) ==> EmailsUnique(db.t.users)
    {
      if !UserExists(db.t, id) {
        return Fail(NotFound);
      }
      if EmailsUnique(db.t.users) {
        RemoveKeepsEmailsUnique(db.t.users, id);
      }
      db.DeleteUser(id);
      r := Pass;
    }
  }
}
