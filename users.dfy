/** The user store: a counted record file of User records with soft deletion, the
    registration and login checks, and the session's active user. */
module Users {
  import opened Wrappers
  import opened FileErrors
  import opened FixedStrings
  import opened RecordFiles

  const MAX_USERNAME_SIZE: nat := 16 + 1
  const MAX_ROLENAME_SIZE: nat := 6 + 1
  const MAX_PASSWORD_SIZE: nat := 16 + 1
  const MIN_USERNAME_SIZE: nat := 2 + 1
  const MIN_PASSWORD_SIZE: nat := 5 + 1
  const HASH_PASSWORD_SIZE: nat := 97 + 1

  datatype UserStatus = Normal | Deleted

  /** A user record; `username` and `password` are what their FixedString fields hold. */
  datatype User = User(id: int, username: string, password: string, isAdmin: bool, status: UserStatus)

  /** The User constructor with its default arguments; both strings go through FixedStrings. */
  function NewUser(username: string, password: string, isAdmin: bool := false,
                   id: int := -1, status: UserStatus := Normal): User
  {
    User(id, Fit(username, MAX_USERNAME_SIZE), Fit(password, HASH_PASSWORD_SIZE), isAdmin, status)
  }

  /** A user built without id and status is a non-deleted user with the placeholder id -1,
      and its stored name is at most 16 characters. */
  lemma NewUserDefaults(username: string, password: string)
    ensures NewUser(username, password).id == -1
    ensures NewUser(username, password).status == Normal
    ensures !NewUser(username, password).isAdmin
    ensures |NewUser(username, password).username| <= MAX_USERNAME_SIZE - 1
    ensures NewUser(username, password).username <= username
  {
    FitBounds(username, MAX_USERNAME_SIZE);
  }

  function UserId(u: User): int {
    u.id
  }

  /** The record selectors used by the scans. */
  function HasId(id: int): User -> bool {
    (u: User) => u.id == id
  }

  function ActiveWithId(id: int): User -> bool {
    (u: User) => u.id == id && u.status == Normal
  }

  function ActiveNamed(name: string): User -> bool {
    (u: User) => u.username == name && u.status == Normal
  }

  function Named(name: string): User -> bool {
    (u: User) => u.username == name
  }

  function ActiveWithPrefix(keyword: string): User -> bool {
    (u: User) => keyword <= u.username && u.status == Normal
  }

  /** The non-deleted user with this name that comes first in the file. */
  function UserByName(rs: seq<User>, name: string): Option<User> {
    At(rs, IndexWhere(rs, ActiveNamed(name)))
  }

  /** The non-deleted user with this id that comes first in the file. */
  function UserById(rs: seq<User>, id: int): Option<User> {
    At(rs, IndexWhere(rs, ActiveWithId(id)))
  }

  /** Lookups by name or id see exactly the non-deleted users: they return the first
      non-deleted match, and nothing when every match is deleted. */
  lemma LookupsSkipDeleted(rs: seq<User>, name: string, id: int)
    ensures UserByName(rs, name).Some? <==>
              exists i | 0 <= i < |rs| :: rs[i].username == name && rs[i].status == Normal
    ensures UserByName(rs, name).Some? ==>
              UserByName(rs, name).value.username == name && UserByName(rs, name).value.status == Normal
    ensures UserById(rs, id).Some? <==>
              exists i | 0 <= i < |rs| :: rs[i].id == id && rs[i].status == Normal
    ensures UserById(rs, id).Some? ==>
              UserById(rs, id).value.id == id && UserById(rs, id).value.status == Normal
  {
    var k := IndexWhere(rs, ActiveNamed(name));
    if exists i | 0 <= i < |rs| :: rs[i].username == name && rs[i].status == Normal {
      var i :| 0 <= i < |rs| && rs[i].username == name && rs[i].status == Normal;
      assert ActiveNamed(name)(rs[i]);
    }
    var m := IndexWhere(rs, ActiveWithId(id));
    if exists i | 0 <= i < |rs| :: rs[i].id == id && rs[i].status == Normal {
      var i :| 0 <= i < |rs| && rs[i].id == id && rs[i].status == Normal;
      assert ActiveWithId(id)(rs[i]);
    }
  }

  // ---------------------------------------------------------------------------
  // Format validation

  datatype Result = Success | Failure

  /** The error messages, by meaning. */
  datatype Reason =
    | NameEmpty | NameTooLong | NameTooShort
    | PasswordEmpty | PasswordTooLong | PasswordTooShort
    | NameTaken | PasswordsDiffer

  /** A validator's outcome: SUCCESS, or FAILURE with its error message. */
  datatype Check = Pass | Fail(reason: Reason)

  /** is_valid_username_format as written: it rejects only names longer than
      MAX_USERNAME_SIZE (17), although the username field keeps at most 16 characters. */
  function UsernameFormatAsWritten(name: string): (c: Check)
    ensures c == Pass <==> MIN_USERNAME_SIZE <= |name| <= MAX_USERNAME_SIZE
    ensures c == Fail(NameEmpty) <==> |name| == 0
    ensures c == Fail(NameTooLong) <==> |name| > MAX_USERNAME_SIZE
    ensures c == Fail(NameTooShort) <==> 0 < |name| < MIN_USERNAME_SIZE
  {
    if |name| == 0 then Fail(NameEmpty)
    else if |name| > MAX_USERNAME_SIZE then Fail(NameTooLong)
    else if |name| < MIN_USERNAME_SIZE then Fail(NameTooShort)
    else Pass
  }

  /** A 17-character name passes the check as written but is stored cut to 16 characters,
      so the registered user can never be found under the name it registered with. */
  lemma UsernameAcceptedButTruncated()
    ensures var name := "abcdefghijklmnopq";
            UsernameFormatAsWritten(name) == Pass &&
            NewUser(name, "secret1").username != name
  {
    var name := "abcdefghijklmnopq";
    FitBounds(name, MAX_USERNAME_SIZE);
  }

  /** The username check with the bound the field can hold (MAX_USERNAME_SIZE counts the
      terminating NUL). */
  function UsernameFormat(name: string): (c: Check)
    ensures c == Pass <==> MIN_USERNAME_SIZE <= |name| <= MAX_USERNAME_SIZE - 1
    ensures c == Fail(NameEmpty) <==> |name| == 0
    ensures c == Fail(NameTooLong) <==> |name| > MAX_USERNAME_SIZE - 1
    ensures c == Fail(NameTooShort) <==> 0 < |name| < MIN_USERNAME_SIZE
  {
    if |name| == 0 then Fail(NameEmpty)
    else if |name| > MAX_USERNAME_SIZE - 1 then Fail(NameTooLong)
    else if |name| < MIN_USERNAME_SIZE then Fail(NameTooShort)
    else Pass
  }

  /** Every name the corrected check accepts (and that holds no NUL) is stored unchanged. */
  lemma UsernameFormatFits(name: string, password: string)
    requires UsernameFormat(name) == Pass && NUL !in name
    ensures NewUser(name, password).username == name
  {
    FitBounds(name, MAX_USERNAME_SIZE);
  }

  /** is_valid_password_format: 6 to 17 characters (the password is hashed before storage). */
  function PasswordFormat(password: string): (c: Check)
    ensures c == Pass <==> MIN_PASSWORD_SIZE <= |password| <= MAX_PASSWORD_SIZE
    ensures c == Fail(PasswordEmpty) <==> |password| == 0
    ensures c == Fail(PasswordTooLong) <==> |password| > MAX_PASSWORD_SIZE
    ensures c == Fail(PasswordTooShort) <==> 0 < |password| < MIN_PASSWORD_SIZE
  {
    if |password| == 0 then Fail(PasswordEmpty)
    else if |password| > MAX_PASSWORD_SIZE then Fail(PasswordTooLong)
    else if |password| < MIN_PASSWORD_SIZE then Fail(PasswordTooShort)
    else Pass
  }

  // ---------------------------------------------------------------------------
  // Soft deletion, restoration and in-place update on the record sequence

  /** delete_user on the records: flip the first record with this id from NORMAL to DELETED. */
  function DeleteUserAt(rs: seq<User>, id: int): Written<User> {
    var pos := IndexWhere(rs, HasId(id));
    if pos < 0 || rs[pos].status != Normal then Written(NotFound, rs)
    else Written(OK, rs[pos := rs[pos].(status := Deleted)])
  }

  /** restore_user on the records: flip the first record with this id from DELETED to NORMAL. */
  function RestoreUserAt(rs: seq<User>, id: int): Written<User> {
    var pos := IndexWhere(rs, HasId(id));
    if pos < 0 || rs[pos].status != Deleted then Written(NotFound, rs)
    else Written(OK, rs[pos := rs[pos].(status := Normal)])
  }

  /** update_user on the records: replace the first record with the new record's id. */
  function UpdateUserAt(rs: seq<User>, u: User): Written<User> {
    var pos := IndexWhere(rs, HasId(u.id));
    if pos < 0 then Written(NotFound, rs) else Written(OK, rs[pos := u])
  }

  /** Deleting succeeds exactly on a NORMAL record, changes only that record's status, and
      leaves the record count alone; the user then disappears from id lookups. */
  lemma DeleteUserChangesOnlyStatus(rs: seq<User>, id: int)
    ensures var w := DeleteUserAt(rs, id);
            && |w.records| == |rs|
            && (w.code == OK <==> exists i | 0 <= i < |rs| :: rs[i].id == id && IndexWhere(rs, HasId(id)) == i && rs[i].status == Normal)
            && (w.code == OK ==> UserById(w.records, id).None? || IndexWhere(w.records, ActiveWithId(id)) > IndexWhere(rs, HasId(id)))
            && forall i | 0 <= i < |rs| :: w.records[i] == rs[i] ||
                 (w.code == OK && i == IndexWhere(rs, HasId(id)) && w.records[i] == rs[i].(status := Deleted))
  {
  }

  /** Deleting an already deleted user reports NotFound and changes nothing. */
  lemma {:induction false} DeleteTwiceNotFound(rs: seq<User>, id: int)
    ensures var once := DeleteUserAt(rs, id).records;
            DeleteUserAt(once, id) == Written(NotFound, once)
  {
    var pos := IndexWhere(rs, HasId(id));
    if 0 <= pos && rs[pos].status == Normal {
      IndexWhereAfterRewrite(rs, HasId(id), rs[pos].(status := Deleted));
    }
  }

  /** Restoring a user that was just deleted succeeds and gives back the original records;
      deleting again then succeeds with the same result as the first delete. */
  lemma {:induction false} DeleteRestoreRoundTrip(rs: seq<User>, id: int)
    requires DeleteUserAt(rs, id).code == OK
    ensures RestoreUserAt(DeleteUserAt(rs, id).records, id) == Written(OK, rs)
    ensures DeleteUserAt(RestoreUserAt(DeleteUserAt(rs, id).records, id).records, id) == DeleteUserAt(rs, id)
  {
    var pos := IndexWhere(rs, HasId(id));
    IndexWhereAfterRewrite(rs, HasId(id), rs[pos].(status := Deleted));
    assert rs[pos := rs[pos].(status := Deleted)][pos := rs[pos]] == rs;
  }

  /** Restoring succeeds exactly on a DELETED record and is the mirror image of deletion. */
  lemma {:induction false} RestoreDeleteRoundTrip(rs: seq<User>, id: int)
    requires RestoreUserAt(rs, id).code == OK
    ensures DeleteUserAt(RestoreUserAt(rs, id).records, id) == Written(OK, rs)
    ensures RestoreUserAt(RestoreUserAt(rs, id).records, id).code == NotFound
  {
    var pos := IndexWhere(rs, HasId(id));
    IndexWhereAfterRewrite(rs, HasId(id), rs[pos].(status := Normal));
    assert rs[pos := rs[pos].(status := Normal)][pos := rs[pos]] == rs;
  }

  /** An update keeps the record at its position: a later scan for the id finds the new
      record there, and the record count never changes. */
  lemma {:induction false} UpdateUserStable(rs: seq<User>, u: User)
    ensures |UpdateUserAt(rs, u).records| == |rs|
    ensures UpdateUserAt(rs, u).code == OK <==> exists i | 0 <= i < |rs| :: rs[i].id == u.id
    ensures UpdateUserAt(rs, u).code == OK ==>
              var pos := IndexWhere(rs, HasId(u.id));
              IndexWhere(UpdateUserAt(rs, u).records, HasId(u.id)) == pos &&
              UpdateUserAt(rs, u).records[pos] == u
  {
    var pos := IndexWhere(rs, HasId(u.id));
    if pos >= 0 {
      IndexWhereAfterRewrite(rs, HasId(u.id), u);
    }
  }

  /** Round trip: a NORMAL user appended under the id the header issued is what a lookup
      by that id returns, because no earlier record carries that id. */
  lemma {:induction false} AppendThenGetById(rs: seq<User>, next: int, u: User)
    requires KeysBelow(rs, UserId, next)
    requires u.status == Normal
    ensures UserById(rs + [u.(id := next)], next) == Some(u.(id := next))
  {
    forall j | 0 <= j < |rs|
      ensures !ActiveWithId(next)(rs[j])
    {
      assert UserId(rs[j]) < next;
    }
    IndexWhereAfterAppend(rs, ActiveWithId(next), u.(id := next));
  }

  // ---------------------------------------------------------------------------
  // Searching

  /** `q` occurs in `s` starting at position k. */
  predicate OccursAt(s: string, q: string, k: int) {
    0 <= k && k + |q| <= |s| && s[k..k + |q|] == q
  }

  lemma OccursShift(s: string, q: string)
    requires |s| > 0
    ensures forall k | 1 <= k :: OccursAt(s, q, k) == OccursAt(s[1..], q, k - 1)
  {
    forall k | 1 <= k
      ensures OccursAt(s, q, k) == OccursAt(s[1..], q, k - 1)
    {
      if k + |q| <= |s| {
        assert s[1..][k - 1..k - 1 + |q|] == s[k..k + |q|];
      }
    }
  }

  /** std::string::find: the first position at which `q` occurs in `s`, with -1 for npos. */
  function Find(s: string, q: string): (r: int)
    ensures -1 <= r <= |s|
    ensures 0 <= r ==> OccursAt(s, q, r)
    ensures forall k | 0 <= k && (r < 0 || k < r) :: !OccursAt(s, q, k)
  {
    if |q| > |s| then -1
    else if s[..|q|] == q then 0
    else
      var k := Find(s[1..], q);
      OccursShift(s, q);
      assert !OccursAt(s, q, 0);
      if k < 0 then -1 else k + 1
  }

  /** std::to_string on an int. */
  function DecimalString(i: int): string {
    if i < 0 then "-" + NatString(-i) else NatString(i)
  }

  function NatString(n: nat): string {
    if n < 10 then ["0123456789"[n]] else NatString(n / 10) + ["0123456789"[n % 10]]
  }

  /** search_users_list's test as written: `find` is used as a truth value, so a user is
      listed when the query is absent from the name (npos) or found past position 0, and
      is left out when the name starts with the query. */
  function ListedAsWritten(query: string): User -> bool {
    (u: User) => query == [] || DecimalString(u.id) == query || Find(u.username, query) != 0
  }

  /** A user named "abc" with id 5 is not found by the query "ab", while "zzz" is. */
  lemma SearchAsWrittenMissesPrefix()
    ensures !ListedAsWritten("ab")(User(5, "abc", "", false, Normal))
    ensures ListedAsWritten("ab")(User(6, "zzz", "", false, Normal))
  {
    assert DecimalString(5) == "5";
    assert DecimalString(6) == "6";
    assert "abc"[..2] == "ab";
    var z := Find("zzz", "ab");
    if 0 <= z {
      assert "zzz"[z] == 'z';
    }
  }

  /** The evidently intended test: empty query, exact id, or the query occurs in the name. */
  function ListedByQuery(query: string): User -> bool {
    (u: User) => query == [] || DecimalString(u.id) == query || Find(u.username, query) != -1
  }

  /** With the intended test a user is listed iff the query is empty, equals its id, or is a
      substring of its name; deleted users are listed too. */
  lemma ListedByQuerySpec(query: string, u: User)
    ensures ListedByQuery(query)(u) <==>
              query == [] || DecimalString(u.id) == query ||
              exists k :: OccursAt(u.username, query, k)
  {
  }

  // ---------------------------------------------------------------------------
  // The manager

  class UserManager {
    const file: RecordFile<User>
    /** SecurityUtils::check_password(input, stored), left uninterpreted. */
    const verify: (string, string) -> bool
    /** SecurityUtils::hash_password, left uninterpreted. */
    const hash: string -> string
    var activeUser: Option<User>

    /** Constructing a manager always runs init_db_file on its file. */
    constructor (file: RecordFile<User>, verify: (string, string) -> bool, hash: string -> string,
                 readOpens: bool, writeOpens: bool)
      modifies file
      ensures this.file == file && this.verify == verify && this.hash == hash
      ensures activeUser == None
      ensures (!readOpens || old(file.IsEmpty())) && writeOpens ==> file.header == Some(1) && file.records == []
      ensures !((!readOpens || old(file.IsEmpty())) && writeOpens) ==>
                file.header == old(file.header) && file.records == old(file.records)
    {
      this.file := file;
      this.verify := verify;
      this.hash := hash;
      activeUser := None;
      new;
      file.InitHeader(readOpens, writeOpens);
    }

    /** check_password: SUCCESS exactly when the security check accepts. */
    function CheckPassword(input: string, stored: string): (r: Result)
      ensures r == Success <==> verify(input, stored)
    {
      if verify(input, stored) then Success else Failure
    }

    /** get_current_user. */
    function CurrentUser(): Option<User>
      reads this
    {
      activeUser
    }

    /** logout: afterwards there is no current user. */
    method Logout()
      modifies this`activeUser
      ensures CurrentUser() == None
    {
      activeUser := None;
    }

    /** generate_and_update_id. */
    method GenerateAndUpdateId(opens: bool) returns (id: int)
      modifies file`header
      ensures opens && old(file.header).Some? ==> id == old(file.header).value && file.header == Some(id + 1)
      ensures !(opens && old(file.header).Some?) ==> id == -1 && file.header == old(file.header)
    {
      id := file.GenerateId(opens);
    }

    /** get_user_by_name: the first non-deleted user with this name. */
    method GetUserByName(name: string, opens: bool) returns (r: Option<User>)
      ensures r == (if opens then UserByName(file.records, name) else None)
      ensures r.Some? ==> r.value in file.records && r.value.username == name && r.value.status == Normal
    {
      if !opens {
        return None;
      }
      var pos := file.FindFirst(ActiveNamed(name));
      r := At(file.records, pos);
    }

    /** get_user_by_id: the first non-deleted user with this id. */
    method GetUserById(id: int, opens: bool) returns (r: Option<User>)
      ensures r == (if opens then UserById(file.records, id) else None)
      ensures r.Some? ==> r.value in file.records && r.value.id == id && r.value.status == Normal
    {
      if !opens {
        return None;
      }
      var pos := file.FindFirst(ActiveWithId(id));
      r := At(file.records, pos);
    }

    /** get_user_pos: the position of the first record with this id, whatever its status. */
    method GetUserPos(id: int, opens: bool) returns (pos: Option<nat>)
      ensures opens && 0 <= IndexWhere(file.records, HasId(id)) ==> pos == Some(IndexWhere(file.records, HasId(id)) as nat)
      ensures !(opens && 0 <= IndexWhere(file.records, HasId(id))) ==> pos == None
      ensures pos.Some? ==> pos.value < |file.records| && file.records[pos.value].id == id
    {
      if !opens {
        return None;
      }
      var i := file.FindFirst(HasId(id));
      pos := if i < 0 then None else Some(i as nat);
    }

    /** get_id_by_username: the id of the first record with this name, deleted or not; -1 if none. */
    method GetIdByUsername(name: string, opens: bool) returns (id: int)
      ensures var pos := IndexWhere(file.records, Named(name));
              id == if opens && 0 <= pos then file.records[pos].id else -1
    {
      if !opens {
        return -1;
      }
      var pos := file.FindFirst(Named(name));
      id := if pos < 0 then -1 else file.records[pos].id;
    }

    /** search_user: how many non-deleted users have a name starting with the keyword. */
    method SearchUser(keyword: string, opens: bool) returns (count: int)
      ensures count == if opens then |Filter(file.records, ActiveWithPrefix(keyword))| else 0
    {
      count := 0;
      if !opens {
        return;
      }
      var rs := file.records;
      var i := 0;
      while i < |rs|
        invariant 0 <= i <= |rs|
        invariant count == |Filter(rs[..i], ActiveWithPrefix(keyword))|
      {
        var u := rs[i];
        FilterPrefixStep(rs, i, ActiveWithPrefix(keyword));
        if keyword <= u.username && u.status == Normal {
          count := count + 1;
        }
        i := i + 1;
      }
      assert rs[..i] == rs;
    }

    /** search_users_list, with the intended substring test: every record (deleted ones
        included) that the query selects, in file order; all records for an empty query. */
    method SearchUsersList(query: string, opens: bool) returns (result: seq<User>)
      ensures result == if opens then Filter(file.records, ListedByQuery(query)) else []
    {
      result := [];
      if !opens {
        return;
      }
      var rs := file.records;
      var i := 0;
      while i < |rs|
        invariant 0 <= i <= |rs|
        invariant result == Filter(rs[..i], ListedByQuery(query))
      {
        var u := rs[i];
        FilterPrefixStep(rs, i, ListedByQuery(query));
        if ListedByQuery(query)(u) {
          result := result + [u];
        }
        i := i + 1;
      }
      assert rs[..i] == rs;
    }

    /** check_login: SUCCESS when a non-deleted user has this name and the password check
        accepts its stored hash; that user then becomes the current user. */
    method CheckLogin(name: string, password: string, opens: bool) returns (r: Result)
      modifies this`activeUser
      ensures var found := if opens then UserByName(file.records, name) else None;
              && (r == Success <==> found.Some? && verify(password, found.value.password))
              && (r == Success ==> activeUser == found)
              && (r == Failure ==> activeUser == old(activeUser))
    {
      var found := GetUserByName(name, opens);
      if found.Some? && CheckPassword(password, found.value.password) == Success {
        activeUser := found;
        return Success;
      }
      return Failure;
    }

    /** append_user: take a fresh id from the header and write the user, with that id, past
        the end of the file. */
    method AppendUser(u: User, opens: bool) returns (e: FileErrorCode)
      modifies file
      ensures var issued := if opens && old(file.header).Some? then old(file.header).value else -1;
              && file.header == (if issued == -1 && !(opens && old(file.header).Some?) then old(file.header) else Some(issued + 1))
              && (e == OK <==> issued != -1)
              && (e != OK ==> e == OpenFailure && file.records == old(file.records))
              && (e == OK ==> file.records == old(file.records) + [u.(id := issued)])
      ensures IdsFresh(old(file.header), old(file.records), UserId) ==> IdsFresh(file.header, file.records, UserId)
    {
      ghost var wasFresh := IdsFresh(file.header, file.records, UserId);
      var id := file.GenerateId(opens);
      if id == -1 {
        return OpenFailure;
      }
      if wasFresh {
        AppendFreshId(id, file.records, u.(id := id), UserId);
      }
      file.Append(u.(id := id));
      return OK;
    }

    /** update_user: overwrite, in place, the first record whose id is the new record's id. */
    method UpdateUser(u: User, opens: bool) returns (e: FileErrorCode)
      modifies file`records
      ensures opens ==> Written(e, file.records) == UpdateUserAt(old(file.records), u)
      ensures !opens ==> e == OpenFailure && file.records == old(file.records)
      ensures |file.records| == |old(file.records)|
      ensures IdsFresh(file.header, old(file.records), UserId) ==> IdsFresh(file.header, file.records, UserId)
    {
      if !opens {
        return OpenFailure;
      }
      var pos := file.FindFirst(HasId(u.id));
      if pos < 0 {
        return NotFound;
      }
      if IdsFresh(file.header, file.records, UserId) {
        RewriteKeepsIds(file.header.value, file.records, pos, u, UserId);
      }
      file.RewriteAt(pos, u);
      return OK;
    }

    /** delete_user: flip the record found by get_user_pos to DELETED, if it is NORMAL. */
    method DeleteUser(id: int, opens: bool) returns (e: FileErrorCode)
      modifies file`records
      ensures opens ==> Written(e, file.records) == DeleteUserAt(old(file.records), id)
      ensures !opens ==> e == OpenFailure && file.records == old(file.records)
    {
      if !opens {
        return OpenFailure;
      }
      var pos := GetUserPos(id, opens);
      if pos.None? {
        return NotFound;
      }
      var temp := file.records[pos.value];
      if temp.status == Normal {
        temp := temp.(status := Deleted);
      } else {
        return NotFound;
      }
      file.RewriteAt(pos.value, temp);
      return OK;
    }

    /** restore_user: flip the record found by get_user_pos back to NORMAL, if it is DELETED. */
    method RestoreUser(id: int, opens: bool) returns (e: FileErrorCode)
      modifies file`records
      ensures opens ==> Written(e, file.records) == RestoreUserAt(old(file.records), id)
      ensures !opens ==> e == OpenFailure && file.records == old(file.records)
    {
      if !opens {
        return OpenFailure;
      }
      var pos := GetUserPos(id, opens);
      if pos.None? {
        return NotFound;
      }
      var temp := file.records[pos.value];
      if temp.status == Deleted {
        temp := temp.(status := Normal);
      } else {
        return NotFound;
      }
      file.RewriteAt(pos.value, temp);
      return OK;
    }

    /** check_register: validate both formats, reject a taken name and differing passwords
        without writing anything; otherwise append a non-admin user holding the password's
        hash. The append's own result is not consulted. */
    method CheckRegister(name: string, password: string, again: string, opens: bool) returns (c: Check)
      modifies file
      ensures c == Pass <==>
                && UsernameFormat(name) == Pass && PasswordFormat(password) == Pass
                && (opens ==> UserByName(old(file.records), name).None?)
                && password == again
      ensures UsernameFormat(name).Fail? ==> c == UsernameFormat(name)
      ensures UsernameFormat(name) == Pass && PasswordFormat(password).Fail? ==> c == PasswordFormat(password)
      ensures c.Fail? ==> file.header == old(file.header) && file.records == old(file.records)
      ensures c == Pass && opens && old(file.header).Some? ==> file.header == Some(old(file.header).value + 1)
      ensures c == Pass && !(opens && old(file.header).Some?) ==> file.header == old(file.header)
      ensures c == Pass && opens && old(file.header).Some? && old(file.header).value != -1 ==>
                file.records == old(file.records) + [NewUser(name, hash(password)).(id := old(file.header).value)]
      ensures c == Pass && !(opens && old(file.header).Some? && old(file.header).value != -1) ==>
                file.records == old(file.records)
      ensures IdsFresh(old(file.header), old(file.records), UserId) ==> IdsFresh(file.header, file.records, UserId)
    {
      if UsernameFormat(name).Fail? {
        return UsernameFormat(name);
      }
      if PasswordFormat(password).Fail? {
        return PasswordFormat(password);
      }
      var existing := GetUserByName(name, opens);
      if existing.Some? {
        return Fail(NameTaken);
      }
      if password != again {
        return Fail(PasswordsDiffer);
      }
      var hashed := hash(password);
      var _ := AppendUser(NewUser(name, hashed, false), opens);
      return Pass;
    }
  }
}
