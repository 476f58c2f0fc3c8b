/** The session hook (src/hooks/useAuth.ts): the signed-in user, mirrored in
    browser storage under the key `user`. The authentication provider's
    answer is a parameter. */
module UseAuth {
  import opened Wrappers
  import opened Types
  import opened BrowserStorage

  const UserKey: string := "user"

  /** The session a page load restores: the stored user, if the `user` entry
      holds one. */
  function SavedUser(entries: map<string, Stored>): (u: Option<User>)
    ensures u.Some? <==> UserKey in entries && entries[UserKey].StoredUser?
    ensures u.Some? ==> entries[UserKey] == StoredUser(u.value)
  {
    if UserKey in entries && entries[UserKey].StoredUser? then Some(entries[UserKey].user) else None
  }

  /** `userData`: the provider's user with the issued token attached. */
  function SessionUser(response: AuthResponse): User {
    User(response.user.id, response.user.email, response.token)
  }

  class Session {
    var user: Option<User>
    const storage: LocalStorage

    /** The lazy initial state: the user read back from storage. */
    constructor (storage: LocalStorage)
      ensures this.storage == storage
      ensures user == SavedUser(storage.entries)
      ensures Synced()
    {
      this.storage := storage;
      var saved := storage.GetItem(UserKey);
      user := if saved.Some? && saved.value.StoredUser? then Some(saved.value.user) else None;
    }

    /** The user in memory is the one a reload would restore. */
    predicate Synced()
      reads this, storage
    {
      user == SavedUser(storage.entries)
    }

    /** `login`: on success store and set the session user and return it; on
        failure rethrow, changing nothing. */
    method Login(reply: Result<AuthResponse, string>) returns (r: Result<User, string>)
      modifies this, storage
      ensures reply.Ok? ==> r == Ok(SessionUser(reply.value)) && user == Some(r.value)
      ensures reply.Ok? ==> storage.entries == old(storage.entries)[UserKey := StoredUser(r.value)]
      ensures reply.Ok? ==> Synced()
      ensures reply.Err? ==> r == Err(reply.error) && user == old(user) && storage.entries == old(storage.entries)
    {
      r := SignIn(reply);
    }

    /** `register`: the same as `login`, for a new account. */
    method Register(reply: Result<AuthResponse, string>) returns (r: Result<User, string>)
      modifies this, storage
      ensures reply.Ok? ==> r == Ok(SessionUser(reply.value)) && user == Some(r.value)
      ensures reply.Ok? ==> storage.entries == old(storage.entries)[UserKey := StoredUser(r.value)]
      ensures reply.Ok? ==> Synced()
      ensures reply.Err? ==> r == Err(reply.error) && user == old(user) && storage.entries == old(storage.entries)
    {
      r := SignIn(reply);
    }

    method SignIn(reply: Result<AuthResponse, string>) returns (r: Result<User, string>)
      modifies this, storage
      ensures reply.Ok? ==> r == Ok(SessionUser(reply.value)) && user == Some(r.value)
      ensures reply.Ok? ==> storage.entries == old(storage.entries)[UserKey := StoredUser(r.value)]
      ensures reply.Ok? ==> Synced()
      ensures reply.Err? ==> r == Err(reply.error) && user == old(user) && storage.entries == old(storage.entries)
    {
      match reply
      case Err(e) =>
        r := Err(e);
      case Ok(response) =>
        var userData := SessionUser(response);
        storage.SetItem(UserKey, StoredUser(userData));
        user := Some(userData);
        r := Ok(userData);
    }

    /** `logout`: drop the `user` entry and the session; every other entry,
        `token` included, stays. */
    method Logout()
      modifies this, storage
      ensures user == None
      ensures storage.entries == old(storage.entries) - {UserKey}
      ensures Synced()
    {
      storage.RemoveItem(UserKey);
      user := None;
    }
  }

  /** A signed-in user survives a reload. */
  lemma ReloadAfterSignIn(entries: map<string, Stored>, response: AuthResponse)
    ensures SavedUser(entries[UserKey := StoredUser(SessionUser(response))]) == Some(SessionUser(response))
  {
  }

  /** After logout a reload restores no session, and other keys are kept. */
  lemma ReloadAfterLogout(entries: map<string, Stored>)
    ensures SavedUser(entries - {UserKey}) == None
    ensures forall k :: k != UserKey ==> (k in entries - {UserKey} <==> k in entries)
  {
  }
}
