/** UserService.cs: registering checks the username, then the password hash,
    then that the username is unused, before the one write; reads go straight to
    the store; an e-mail update touches the e-mail of one stored user only. */
module UserServices {
  import opened Common
  import opened UserEntity
  import opened Persistence

  class UserService {
    const store: Store

    constructor (store: Store)
      ensures this.store == store
    {
      this.store := store;
    }

    /** RegisterUserAsync. `id` is the fresh Guid the new User draws. */
    method RegisterUser(id: Guid, username: string, passwordHash: string, email: Option<string>)
      returns (r: Outcome)
      requires store.Valid()
      requires id != EmptyGuid && id !in store.users
      modifies store
      ensures store.Valid()
      ensures IsNullOrWhiteSpace(username) ==> r == Fail(Invalid(UsernameArg))
      ensures !IsNullOrWhiteSpace(username) && IsNullOrWhiteSpace(passwordHash) ==>
                r == Fail(Invalid(PasswordHashArg))
      ensures !IsNullOrWhiteSpace(username) && !IsNullOrWhiteSpace(passwordHash)
              && old(store.UsernameTaken(username)) ==>
                r == Fail(DuplicateUsername)
      ensures r.Pass? <==> !IsNullOrWhiteSpace(username) && !IsNullOrWhiteSpace(passwordHash)
                           && !old(store.UsernameTaken(username))
      ensures store.recipes == old(store.recipes) && store.favorites == old(store.favorites)
      ensures r.Fail? ==> store.users == old(store.users)
      ensures r.Pass? ==> id in store.users && store.users == old(store.users)[id := store.users[id]]
      ensures r.Pass? ==> var u := store.users[id];
                fresh(u) && u.WellFormed() && u.Id == id && u.Username == username
                && u.PasswordHash == passwordHash && u.Email == email && u.Favorites == []
    {
      if IsNullOrWhiteSpace(username) {
        return Fail(Invalid(UsernameArg));
      }
      if IsNullOrWhiteSpace(passwordHash) {
        return Fail(Invalid(PasswordHashArg));
      }
      var existing := store.GetUserByUsername(username);
      if existing.Some? {
        return Fail(DuplicateUsername);
      }
      var user := User.Create(id, username, passwordHash, email);
      store.AddUser(user.value);
      return Pass;
    }

    /** GetUserByIdAsync. */
    method GetUserById(userId: Guid) returns (u: Option<User>)
      ensures u.Some? <==> userId in store.users
      ensures u.Some? ==> u.value == store.users[userId]
    {
      u := store.GetUserById(userId);
    }

    /** GetUserByUsernameAsync: a blank username is refused before the lookup;
        otherwise the one user with exactly that username, if any. */
    method GetUserByUsername(username: string) returns (r: Result<Option<User>>)
      requires store.Valid()
      ensures r.Failure? <==> IsNullOrWhiteSpace(username)
      ensures r.Failure? ==> r.error == Invalid(UsernameArg)
      ensures r.Success? ==> (r.value.None? <==> !store.UsernameTaken(username))
      ensures r.Success? && r.value.Some? ==>
                r.value.value.Username == username && r.value.value.Id in store.users
                && store.users[r.value.value.Id] == r.value.value
    {
      if IsNullOrWhiteSpace(username) {
        return Failure(Invalid(UsernameArg));
      }
      var u := store.GetUserByUsername(username);
      return Success(u);
    }

    /** UpdateEmailAsync: any string, the empty one included, becomes the
        e-mail of that user; nothing else changes. */
    method UpdateEmail(userId: Guid, newEmail: string) returns (r: Outcome)
      requires store.Valid()
      modifies store.users.Values
      ensures store.Valid()
      ensures r.Fail? <==> userId !in store.users
      ensures r.Fail? ==> r.error == NotFound
      ensures r.Pass? ==> store.users[userId].Email == Some(newEmail)
      ensures r.Pass? ==> store.users[userId].Favorites == old(store.users[userId].Favorites)
      ensures forall k :: k in store.users && k != userId ==>
                store.users[k].Email == old(store.users[k].Email)
                && store.users[k].Favorites == old(store.users[k].Favorites)
    {
      var user := store.GetUserById(userId);
      if user.None? {
        return Fail(NotFound);
      }
      user.value.ChangeEmail(newEmail);
      return Pass;
    }
  }
}
