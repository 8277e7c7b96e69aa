/**
 * The user repository (internal/repository/user.go): the insert, the lookups by id and
 * by e-mail, the keyset-paginated listing and the row count of the users table.
 */
module UserRepository {
  import opened Model
  import opened Store
  import opened Paging

  /** The insert Create issues: role "user", created_at now. */
  function InsertFor(u: UserInCreate, now: int): Write
  {
    InsertUser(u.email, u.password, RoleUser, u.tgChatId, now)
  }

  /** Create: one row with the given e-mail, password and chat id, always with role "user". */
  method Create(s: Storage, u: UserInCreate, now: int, fault: Option<string>) returns (err: Option<Error>)
    modifies s
    ensures err == FaultError(fault)
    ensures fault.None? ==>
              s.Contents() == Apply(old(s.Contents()), InsertFor(u, now)) && s.journal == old(s.journal) + [InsertFor(u, now)]
    ensures fault.Some? ==> s.Contents() == old(s.Contents()) && s.journal == old(s.journal)
  {
    if fault.Some? {
      return Some(Db(fault.value));
    }
    s.Exec(InsertFor(u, now));
    return None;
  }

  /** WHERE user_id = $1. */
  function WithId(id: int): UserRow -> bool
  {
    (u: UserRow) => u.id == id
  }

  /** WHERE email = $1. */
  function WithEmail(email: string): UserRow -> bool
  {
    (u: UserRow) => u.email == email
  }

  /** GetByID: the first row with that id, or the zero record and no error. */
  function GetByID(t: Tables, id: int, fault: Option<string>): (r: Result<UserRow>)
    ensures fault.Some? ==> r == Err(Db(fault.value))
    ensures fault.None? && (forall u :: u in t.users ==> u.id != id) ==> r == Ok(ZeroUser)
  {
    if fault.Some? then Err(Db(fault.value)) else Ok(FirstOr(t.users, WithId(id), ZeroUser))
  }

  /**
   * GetByEmail: the first row with that e-mail, or the zero record and no error. Nothing
   * here makes e-mails unique, so among several rows the first in table order wins.
   */
  function GetByEmail(t: Tables, email: string, fault: Option<string>): (r: Result<UserRow>)
    ensures fault.Some? ==> r == Err(Db(fault.value))
    ensures fault.None? && (forall u :: u in t.users ==> u.email != email) ==> r == Ok(ZeroUser)
    ensures fault.None? && (exists u :: u in t.users && u.email == email) ==>
              r.Ok? && r.value in t.users && r.value.email == email
  {
    if fault.Some? then Err(Db(fault.value))
    else
      if exists u :: u in t.users && u.email == email then
        FirstOrMatches(t.users, WithEmail(email), ZeroUser);
        Ok(FirstOr(t.users, WithEmail(email), ZeroUser))
      else
        Ok(FirstOr(t.users, WithEmail(email), ZeroUser))
  }

  /** Ids are keys: in a well-formed table the lookup returns THE row with that id. */
  lemma GetByIDFindsRow(t: Tables, row: UserRow)
    requires UserIdsAscend(t.users, t.userSerial)
    requires row in t.users
    ensures GetByID(t, row.id, None) == Ok(row)
  {
    FirstOrMatches(t.users, WithId(row.id), ZeroUser);
    var found := FirstOr(t.users, WithId(row.id), ZeroUser);
    var i :| 0 <= i < |t.users| && t.users[i] == found;
    var j :| 0 <= j < |t.users| && t.users[j] == row;
    assert i == j;
  }

  /**
   * A user created with an e-mail no other row has is found again by that e-mail and by
   * its new id, with role "user".
   */
  lemma CreateThenLookUp(t: Tables, u: UserInCreate, now: int)
    requires WellFormed(t)
    requires forall v :: v in t.users ==> v.email != u.email
    ensures var t' := Apply(t, InsertFor(u, now));
            var row := UserRow(t.userSerial, u.email, u.password, RoleUser, u.tgChatId, now);
            && GetByEmail(t', u.email, None) == Ok(row)
            && GetByID(t', t.userSerial, None) == Ok(row)
  {
    var t' := Apply(t, InsertFor(u, now));
    var row := UserRow(t.userSerial, u.email, u.password, RoleUser, u.tgChatId, now);
    assert t'.users == t.users + [row];
    var k := |t.users|;
    assert t'.users[k] == row;
    assert forall j :: 0 <= j < k ==> !WithEmail(u.email)(t'.users[j]) by {
      forall j | 0 <= j < k ensures !WithEmail(u.email)(t'.users[j]) {
        assert t'.users[j] == t.users[j];
        assert t.users[j] in t.users;
      }
    }
    ApplyKeepsWellFormed(t, InsertFor(u, now));
    GetByIDFindsRow(t', row);
  }

  function UserKey(u: UserRow): Cursor
  {
    Cursor(u.createdAt, u.id)
  }

  /** The users query has no scope beyond the cursor. */
  function AnyUser(): UserRow -> bool
  {
    (u: UserRow) => true
  }

  /**
   * GetListUsers: "next" returns users with created_at above the cursor AND user_id above
   * the last id, ascending; "prev" returns users strictly below (cursor, last id),
   * descending; each at most page_size rows; any other mode runs the empty query text.
   */
  method GetListUsers(t: Tables, req: UserGetRequest, fault: Option<string>) returns (r: Result<seq<UserRow>>)
    ensures fault.Some? ==> r == Err(Db(fault.value))
    ensures fault.None? ==>
              r == Select(t.users, AnyUser(), UserKey, QueryFromMode(req.mode),
                          Cursor(req.lastCreatedAt, req.lastId), req.pageSize)
  {
    if fault.Some? {
      return Err(Db(fault.value));
    }
    var q := Select(t.users, AnyUser(), UserKey, QueryFromMode(req.mode), Cursor(req.lastCreatedAt, req.lastId), req.pageSize);
    if q.Err? {
      return q;
    }
    var out := ScanRows(q.value);
    return Ok(out);
  }

  /** The listing, per mode: the rows it returns, their order and their number. */
  lemma GetListUsersModes(t: Tables, req: UserGetRequest)
    ensures var r := Select(t.users, AnyUser(), UserKey, QueryFromMode(req.mode),
                            Cursor(req.lastCreatedAt, req.lastId), req.pageSize);
            var cursor := Cursor(req.lastCreatedAt, req.lastId);
            && (req.mode != "next" && req.mode != "prev" ==> r == Ok([]))
            && (req.mode == "next" || req.mode == "prev" ==> (r.Err? <==> req.pageSize < 0))
            && (r.Ok? && req.mode == "next" ==>
                  (forall u :: u in r.value ==> u in t.users && Beyond(UserKey(u), cursor))
                  && |r.value| == Min(req.pageSize, |Filter(t.users, NextScope(AnyUser(), UserKey, cursor))|)
                  && Sorted(r.value, UserKey, true))
            && (r.Ok? && req.mode == "prev" ==>
                  (forall u :: u in r.value ==> u in t.users && Below(UserKey(u), cursor))
                  && |r.value| == Min(req.pageSize, |Filter(t.users, PrevScope(AnyUser(), UserKey, cursor))|)
                  && Sorted(r.value, UserKey, false))
  {
    var q := QueryFromMode(req.mode);
    assert req.mode == "next" ==> q == NextQuery;
    assert req.mode == "prev" ==> q == PrevQuery;
  }

  /** SELECT COUNT(*) FROM users: every row. */
  function GetCountUsers(t: Tables, fault: Option<string>): (r: Result<int>)
    ensures fault.Some? ==> r == Err(Db(fault.value))
    ensures fault.None? ==> r == Ok(|t.users|)
  {
    if fault.Some? then Err(Db(fault.value)) else Ok(|t.users|)
  }
}
