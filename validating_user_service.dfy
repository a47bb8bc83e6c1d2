/**
 * The user service that validates its arguments first: a null user or
 * patch, a null or non-positive id, and a new user without a name or an
 * email are refused with Validation before the table is consulted. Past
 * those checks it follows the older service.
 */
module ValidatingUserService {
  import opened Common
  import opened Rows
  import opened Entities
  import opened Store
  import LegacyUserService

  /** `validateCommonUser`: the user is present with a filled-in name and email. */
  function ValidateCommonUser(user: Option<User>): (r: Outcome)
    ensures r == Pass <==> user.Some? && IsFilled(user.value.name) && IsFilled(user.value.email)
    ensures r.Fail? ==> r.error == Validation
  {
    if user.None? then Fail(Validation)
    else if user.value.name.None? || IsBlank(user.value.name.value) then Fail(Validation)
    else if user.value.email.None? || IsBlank(user.value.email.value) then Fail(Validation)
    else Pass
  }

  /** `findById`: the id is validated, then the older service's lookup. */
  function FindById(t: Tables, id: Option<int>): (r: Result<User>)
    ensures !ValidId(id) <==> r == Err(Validation)
    ensures ValidId(id) ==> r == LegacyUserService.FindById(t, id.value)
  {
    if ValidateId(id).Fail? then Err(Validation)
    else
      match UserById(t, id.value)
      case None => Err(NotFound)
      case Some(u) => Ok(u)
  }

  class ValidatingUserService {
    const db: Db

    constructor (db: Db)
      ensures this.db == db
    {
      this.db := db;
    }

    /**
     * `createUser`: an incomplete user is a Validation error and a taken
     * email a Conflict; otherwise the user is stored under a fresh id.
     */
    method CreateUser(user: Option<User>) returns (r: Result<User>)
      requires db.Valid()
      modifies db
      ensures db.Valid()
      ensures r == Err(Validation) <==> ValidateCommonUser(user).Fail?
      ensures r == Err(Conflict) <==> ValidateCommonUser(user) == Pass && EmailTaken(old(db.t.users), user.value.email)
      ensures r.Err? ==> r == Err(Validation) || r == Err(Conflict)
      ensures r.Err? ==> db.t == old(db.t) && db.nextId == old(db.nextId)
      ensures r.Ok? ==> r.value == user.value.(id := old(db.nextId)) && IsFilled(r.value.name) && IsFilled(r.value.email)
      ensures r.Ok? ==> db.t == old(db.t).(users := old(db.t.users) + [r.value]) && db.nextId == old(db.nextId) + 1
      ensures r.Ok? ==> UserById(db.t, r.value.id) == Some(r.value)
      ensures EmailsUnique(old(db.t.users)) ==> EmailsUnique(db.t.users)
    {
      var check := ValidateCommonUser(user);
      if check.Fail? {
        return Err(check.error);
      }
      if EmailTaken(db.t.users, user.value.email) {
        return Err(Conflict);
      }
      if EmailsUnique(db.t.users) {
        InsertKeepsEmailsUnique(db.t.users, user.value.(id := db.nextId));
      }
      var saved := db.InsertUser(user.value.(id := 0));
      r := Ok(saved);
    }

    /**
     * `updateUser`: the id and then the patch are validated; the user must
     * then exist (NotFound), and the name and the email are taken over one
     * at a time as in the older service.
     */
    method UpdateUser(id: Option<int>, patch: Option<User>) returns (r: Result<User>)
      requires db.Valid()
      modifies db
      ensures db.Valid()
      ensures !ValidId(id) || patch.None? ==> r == Err(Validation)
      ensures (ValidId(id) && patch.Some?) ==>
        && (r.Err? <==> (|| !UserExists(old(db.t), id.value)
                         || !LegacyUserService.PatchFieldsValid(patch.value)
                         || (patch.value.email.Some? && EmailTakenByOther(old(db.t.users), patch.value.email, id.value))))
        && (r.Err? ==> r.error == (if !UserExists(old(db.t), id.value) then NotFound
                                   else if !LegacyUserService.PatchFieldsValid(patch.value) then Validation
                                   else Conflict))
      ensures r.Err? ==> db.t == old(db.t)
      ensures r.Ok? ==> ValidId(id) && r.value == LegacyUserService.Patched(UserById(old(db.t), id.value).value, patch.value)
      ensures r.Ok? ==> db.t == old(db.t).(users := Replace(old(db.t.users), UserKey, r.value)) && UserById(db.t, id.value) == Some(r.value)
      ensures db.nextId == old(db.nextId)
      ensures EmailsUnique(old(db.t.users)) ==> EmailsUnique(db.t.users)
    {
      var check := ValidateId(id);
      if check.Fail? {
        return Err(check.error);
      }
      check := ValidatePresent(patch);
      if check.Fail? {
        return Err(check.error);
      }
      var found := UserById(db.t, id.value);
      if found.None? {
        return Err(NotFound);
      }
      var user := found.value;
      if patch.value.name.Some? {
        if IsBlank(patch.value.name.value) {
          return Err(Validation);
        }
        user := user.(name := patch.value.name);
      }
      if patch.value.email.Some? {
        if IsBlank(patch.value.email.value) {
          return Err(Validation);
        }
        if EmailTakenByOther(db.t.users, patch.value.email, id.value) {
          return Err(Conflict);
        }
        user := user.(email := patch.value.email);
      }
      assert user == LegacyUserService.Patched(found.value, patch.value);
      if EmailsUnique(db.t.users) {
        ReplaceKeepsEmailsUnique(db.t.users, found.value, user);
      }
      db.UpdateUser(user);
      r := Ok(user);
    }

    /** `deleteUser`: the id is validated, an absent user is NotFound, otherwise the row is removed. */
    method DeleteUser(id: Option<int>) returns (r: Outcome)
      requires db.Valid()
      modifies db
      ensures db.Valid()
      ensures r == Fail(Validation) <==> !ValidId(id)
      ensures r == Fail(NotFound) <==> ValidId(id) && !UserExists(old(db.t), id.value)
      ensures r.Fail? ==> r == Fail(Validation) || r == Fail(NotFound)
      ensures r.Fail? ==> db.t == old(db.t)
      ensures r == Pass ==> db.t == old(db.t).(users := Remove(old(db.t.users), UserKey, id.value)) && !UserExists(db.t, id.value)
      ensures db.nextId == old(db.nextId)
      ensures EmailsUnique(old(db.t.users)) ==> EmailsUnique(db.t.users)
    {
      r := ValidateId(id);
      if r.Fail? {
        return;
      }
      if !UserExists(db.t, id.value) {
        return Fail(NotFound);
      }
      if EmailsUnique(db.t.users) {
        RemoveKeepsEmailsUnique(db.t.users, id.value);
      }
      db.DeleteUser(id.value);
    }
  }
}
