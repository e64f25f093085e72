/** The JSON-backed user manager. Users are keyed by the caller-supplied
    `userId`; no identifier is ever generated. Unlike the other managers it
    also loads once when it is constructed. */
module UserStore {
  import opened Outcomes
  import opened PhpArray
  import opened Dto

  /** Users are keyed by their `userId`, verbatim. */
  function UserKey(u: User): string {
    u.userId
  }

  class UserManager {
    /** Whether users.json is found. */
    var fileExists: bool
    /** The records users.json holds, in array order. */
    var file: seq<User>
    /** The `$users` field: userId => user, in insertion order. */
    var users: seq<(string, User)>

    /** The object before its constructor body runs: `$users` is empty. */
    constructor Unloaded(fileExists: bool, file: seq<User>)
      ensures this.fileExists == fileExists && this.file == file && users == []
    {
      this.fileExists := fileExists;
      this.file := file;
      users := [];
    }

    /** `new UserManagerJsonImpl()`: builds the object and loads the file,
        failing as the constructor does when the file is missing. */
    static method Open(fileExists: bool, file: seq<User>) returns (r: Result<UserManager>)
      ensures !fileExists ==> r == Err(FileNotFound)
      ensures fileExists ==>
                && r.Ok? && fresh(r.value)
                && r.value.fileExists && r.value.file == file
                && r.value.users == KeyBy(file, UserKey)
    {
      var m := new UserManager.Unloaded(fileExists, file);
      var o := m.LoadUsersFromFile();
      if o.Fail? {
        return Err(o.error);
      }
      return Ok(m);
    }

    /** The array a load builds from the current file. */
    ghost function Stored(): seq<(string, User)>
      reads this
    {
      KeyBy(file, UserKey)
    }

    /** Resets the array and keys every record of the file by its userId. */
    method LoadUsersFromFile() returns (o: Outcome)
      modifies this`users
      ensures o == if fileExists then Pass else Fail(FileNotFound)
      ensures users == if fileExists then Stored() else old(users)
    {
      if !fileExists {
        return Fail(FileNotFound);
      }
      users := [];
      for i := 0 to |file|
        invariant users == KeyBy(file[..i], UserKey)
      {
        assert file[..i + 1][..i] == file[..i];
        users := Put(users, file[i].userId, file[i]);
      }
      assert file[..|file|] == file;
      return Pass;
    }

    /** Rewrites the file with the array's values, in order. */
    method SaveUsersToFile() returns (o: Outcome)
      modifies this`file
      ensures o == if fileExists then Pass else Fail(FileNotFound)
      ensures file == if fileExists then Values(users) else old(file)
    {
      if !fileExists {
        return Fail(FileNotFound);
      }
      var normalized: seq<User> := [];
      for i := 0 to |users|
        invariant normalized == Values(users[..i])
      {
        assert users[..i + 1][..i] == users[..i];
        normalized := normalized + [users[i].1];
      }
      assert users[..|users|] == users;
      file := normalized;
      return Pass;
    }

    method GetUser(userId: string) returns (r: Result<User>)
      modifies this`users
      ensures users == if fileExists then Stored() else old(users)
      ensures !fileExists ==> r == Err(FileNotFound)
      ensures fileExists && HasKey(Stored(), userId) ==>
                r == Ok(Get(Stored(), userId)) && r.value.userId == userId
      ensures fileExists && !HasKey(Stored(), userId) ==> r == Err(UndefinedKey)
    {
      var o := LoadUsersFromFile();
      if o.Fail? {
        return Err(o.error);
      }
      if HasKey(users, userId) {
        r := Ok(Get(users, userId));
      } else {
        r := Err(UndefinedKey);
      }
    }

    method GetAllUsers() returns (r: Result<seq<(string, User)>>)
      modifies this`users
      ensures users == if fileExists then Stored() else old(users)
      ensures r == if fileExists then Ok(Stored()) else Err(FileNotFound)
    {
      var o := LoadUsersFromFile();
      if o.Fail? {
        return Err(o.error);
      }
      r := Ok(users);
    }

    method GetAllUsersByIndex() returns (r: Result<seq<User>>)
      modifies this`users
      ensures users == if fileExists then Stored() else old(users)
      ensures !fileExists ==> r == Err(FileNotFound)
      ensures fileExists ==>
                && r.Ok? && |r.value| == |Stored()|
                && forall i :: 0 <= i < |Stored()| ==> r.value[i] == Stored()[i].1
    {
      var o := LoadUsersFromFile();
      if o.Fail? {
        return Err(o.error);
      }
      r := Ok(Values(users));
    }

    /** Stores the user under its own userId, refusing a userId already
        stored before anything is written. */
    method AddUser(user: User) returns (o: Outcome)
      modifies this`users, this`file
      ensures !fileExists ==> o == Fail(FileNotFound) && users == old(users) && file == old(file)
      ensures fileExists ==>
                var loaded := KeyBy(old(file), UserKey);
                && (HasKey(loaded, user.userId) ==>
                      o == Fail(DuplicateKey) && users == loaded && file == old(file))
                && (!HasKey(loaded, user.userId) ==>
                      && o == Pass
                      && users == loaded + [(user.userId, user)]
                      && file == Values(users)
                      && Stored() == users)
    {
      o := LoadUsersFromFile();
      if o.Fail? {
        return;
      }
      if !HasKey(users, user.userId) {
        PutKeyed(users, UserKey, user);
        users := Put(users, user.userId, user);
      } else {
        return Fail(DuplicateKey);
      }
      o := SaveUsersToFile();
      assert o.Pass? ==> Stored() == users by {
        SaveThenLoad(users, UserKey);
      }
    }
  }
}
