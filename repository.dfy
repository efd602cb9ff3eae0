/**
 * The three repositories (internal/repository): each holds its table as a
 * sequence of rows and issues one SQL statement per operation. `online` says
 * whether statements reach the database server; when it is false every
 * statement fails with ConnectionFailure and changes nothing.
 */
module Repository {
  import opened Models
  import opened Sql

  // Keys and WHERE conditions of the sessions table.

  function SessionId(s: Session): string { s.id }
  function SessionUid(s: Session): int { s.uid }
  function IdIs(id: string): Session -> bool { (s: Session) => s.id == id }
  function UidIs(uid: int): Session -> bool { (s: Session) => s.uid == uid }
  function CreatedBefore(cutoff: Timestamp): Session -> bool { (s: Session) => s.createdAt < cutoff }

  predicate HasSessionId(rows: seq<Session>, id: string)
  {
    exists s :: s in rows && s.id == id
  }

  // Keys and WHERE conditions of the assets table.

  function NameAndOwner(name: string, uid: int): Asset -> bool { (a: Asset) => a.name == name && a.uid == uid }
  function OwnedBy(uid: int): Asset -> bool { (a: Asset) => a.uid == uid }

  // Keys and WHERE conditions of the users table.

  function UserId(u: User): int { u.id }
  function UserLogin(u: User): string { u.login }
  function LoginIs(login: string): User -> bool { (u: User) => u.login == login }
  function UserIdIs(id: int): User -> bool { (u: User) => u.id == id }

  predicate HasLogin(rows: seq<User>, login: string)
  {
    exists u :: u in rows && u.login == login
  }

  /** An asset as ListAssets scans it: `data` is not selected, so it stays empty. */
  function Unloaded(a: Asset): Asset
  {
    a.(data := [])
  }

  /** What `SELECT name, uid, created_at FROM assets WHERE uid = $1` returns, in table order. */
  function Listing(rows: seq<Asset>, uid: int): (r: seq<Asset>)
    ensures |r| == |Where(rows, OwnedBy(uid))|
    ensures forall i :: 0 <= i < |r| ==> r[i] == Unloaded(Where(rows, OwnedBy(uid))[i])
    ensures forall a :: a in r ==> a.uid == uid && a.data == [] && exists b :: b in rows && a == Unloaded(b)
    ensures forall b :: b in rows && b.uid == uid ==> Unloaded(b) in r
  {
    var selected := Where(rows, OwnedBy(uid));
    var r := seq(|selected|, i requires 0 <= i < |selected| => Unloaded(selected[i]));
    forall b | b in selected ensures Unloaded(b) in r {
      var i :| 0 <= i < |selected| && selected[i] == b;
      assert r[i] == Unloaded(b);
    }
    forall a | a in r ensures a.uid == uid && a.data == [] && exists b :: b in rows && a == Unloaded(b) {
      var i :| 0 <= i < |r| && r[i] == a;
      assert selected[i] in selected && OwnedBy(uid)(selected[i]);
    }
    r
  }

  /** Scanning one more row extends the listing by that row when it is the owner's. */
  lemma ListingSnoc(rows: seq<Asset>, x: Asset, uid: int)
    ensures Listing(rows + [x], uid) == Listing(rows, uid) + if x.uid == uid then [Unloaded(x)] else []
  {
    var before, added := Where(rows, OwnedBy(uid)), Where([x], OwnedBy(uid));
    WhereAppend(rows, [x], OwnedBy(uid));
    assert added == if x.uid == uid then [x] else [];
    var lhs, rhs := Listing(rows + [x], uid), Listing(rows, uid) + if x.uid == uid then [Unloaded(x)] else [];
    assert |lhs| == |rhs|;
    forall i | 0 <= i < |lhs| ensures lhs[i] == rhs[i] {
      assert lhs[i] == Unloaded((before + added)[i]);
    }
  }

  class SessionRepository {
    var rows: seq<Session>
    var online: bool

    /** `id` is the primary key of sessions. */
    ghost predicate Valid()
      reads this
    {
      Distinct(rows, SessionId)
    }

    function View(): Table<Session>
      reads this
    {
      Table(rows, online)
    }

    constructor (online: bool)
      ensures Valid() && rows == [] && this.online == online
    {
      rows := [];
      this.online := online;
    }

    /** INSERT INTO sessions: fails on a duplicate id, otherwise adds exactly `s`. */
    method Create(s: Session) returns (err: Option<DbError>)
      requires Valid()
      modifies this
      ensures Valid() && online == old(online)
      ensures err == None <==> old(online) && !HasSessionId(old(rows), s.id)
      ensures err == None ==> rows == old(rows) + [s]
      ensures err != None ==> rows == old(rows)
      ensures err != None ==> err.value == if old(online) then UniqueViolation else ConnectionFailure
    {
      if !online {
        return Some(ConnectionFailure);
      }
      if HasSessionId(rows, s.id) {
        return Some(UniqueViolation);
      }
      AppendDistinct(rows, s, SessionId);
      rows := rows + [s];
      err := None;
    }

    /** SELECT ... FROM sessions WHERE id = $1. */
    method FindByID(id: string) returns (r: Result<Session, DbError>)
      ensures r == QueryRow(View(), IdIs(id))
      ensures r.Success? ==> r.value in rows && r.value.id == id
      ensures r.Failure? <==> !online || !HasSessionId(rows, id)
    {
      r := QueryRow(View(), IdIs(id));
    }

    /** DELETE FROM sessions WHERE uid = $1: no matching row is not an error. */
    method DeleteByUID(uid: int) returns (err: Option<DbError>)
      requires Valid()
      modifies this
      ensures Valid() && online == old(online)
      ensures err == if old(online) then None else Some(ConnectionFailure)
      ensures rows == if old(online) then DeleteWhere(old(rows), UidIs(uid)) else old(rows)
    {
      if !online {
        return Some(ConnectionFailure);
      }
      WhereDistinct(rows, Not(UidIs(uid)), SessionId);
      rows := DeleteWhere(rows, UidIs(uid));
      err := None;
    }

    /** DELETE FROM sessions WHERE created_at < $1. */
    method DeleteExpired(cutoff: Timestamp) returns (err: Option<DbError>)
      requires Valid()
      modifies this
      ensures Valid() && online == old(online)
      ensures err == if old(online) then None else Some(ConnectionFailure)
      ensures rows == if old(online) then DeleteWhere(old(rows), CreatedBefore(cutoff)) else old(rows)
    {
      if !online {
        return Some(ConnectionFailure);
      }
      WhereDistinct(rows, Not(CreatedBefore(cutoff)), SessionId);
      rows := DeleteWhere(rows, CreatedBefore(cutoff));
      err := None;
    }
  }

  /** With ids unique, FindByID finds exactly the row holding the id. */
  lemma FindByIdUnique(rows: seq<Session>, s: Session)
    requires Distinct(rows, SessionId) && s in rows
    ensures QueryRow(Table(rows, true), IdIs(s.id)) == Success(s)
  {
    QueryRowDistinct(Table(rows, true), IdIs(s.id), SessionId, s);
  }

  /** DeleteByUID(u) leaves no row of u and every other user's rows exactly as they were. */
  lemma DeleteByUidScope(rows: seq<Session>, u: int, v: int)
    ensures Where(DeleteWhere(rows, UidIs(u)), UidIs(u)) == []
    ensures v != u ==> Where(DeleteWhere(rows, UidIs(u)), UidIs(v)) == Where(rows, UidIs(v))
  {
    if v != u {
      WhereNarrow(rows, Not(UidIs(u)), UidIs(v));
    }
  }

  /** DeleteByUID is idempotent, and deleting for a user without sessions changes nothing. */
  lemma DeleteByUidIdempotent(rows: seq<Session>, u: int)
    ensures DeleteWhere(DeleteWhere(rows, UidIs(u)), UidIs(u)) == DeleteWhere(rows, UidIs(u))
    ensures (forall s :: s in rows ==> s.uid != u) ==> DeleteWhere(rows, UidIs(u)) == rows
  {
    WhereNarrow(rows, Not(UidIs(u)), Not(UidIs(u)));
    if forall s :: s in rows ==> s.uid != u {
      WhereAll(rows, Not(UidIs(u)));
    }
  }

  class AssetRepository {
    var rows: seq<Asset>
    var online: bool

    function View(): Table<Asset>
      reads this
    {
      Table(rows, online)
    }

    constructor (online: bool)
      ensures rows == [] && this.online == online
    {
      rows := [];
      this.online := online;
    }

    /** INSERT INTO assets: no uniqueness check on (name, uid), existing rows stay. */
    method CreateAsset(a: Asset) returns (err: Option<DbError>)
      modifies this
      ensures online == old(online)
      ensures err == if old(online) then None else Some(ConnectionFailure)
      ensures rows == if old(online) then old(rows) + [a] else old(rows)
    {
      if !online {
        return Some(ConnectionFailure);
      }
      rows := rows + [a];
      err := None;
    }

    /** SELECT ... FROM assets WHERE name = $1 AND uid = $2. */
    method GetAsset(name: string, uid: int) returns (r: Result<Asset, DbError>)
      ensures r == QueryRow(View(), NameAndOwner(name, uid))
      ensures r.Success? ==> r.value in rows && r.value.name == name && r.value.uid == uid
      ensures r.Failure? <==> !online || forall a :: a in rows ==> !(a.name == name && a.uid == uid)
    {
      r := QueryRow(View(), NameAndOwner(name, uid));
    }

    /** SELECT name, uid, created_at FROM assets WHERE uid = $1, scanned row by row. */
    method ListAssets(uid: int) returns (r: Result<seq<Asset>, DbError>)
      ensures r == if online then Success(Listing(rows, uid)) else Failure(ConnectionFailure)
    {
      if !online {
        return Failure(ConnectionFailure);
      }
      var assets: seq<Asset> := [];
      var i := 0;
      while i < |rows|
        invariant i <= |rows|
        invariant assets == Listing(rows[..i], uid)
      {
        ListingSnoc(rows[..i], rows[i], uid);
        assert rows[..i + 1] == rows[..i] + [rows[i]];
        if rows[i].uid == uid {
          assets := assets + [Unloaded(rows[i])];
        }
        i := i + 1;
      }
      assert rows[..i] == rows;
      r := Success(assets);
    }

    /** DELETE FROM assets WHERE name = $1 AND uid = $2: no matching row is not an error. */
    method DeleteAsset(name: string, uid: int) returns (err: Option<DbError>)
      modifies this
      ensures online == old(online)
      ensures err == if old(online) then None else Some(ConnectionFailure)
      ensures rows == if old(online) then DeleteWhere(old(rows), NameAndOwner(name, uid)) else old(rows)
    {
      if !online {
        return Some(ConnectionFailure);
      }
      rows := DeleteWhere(rows, NameAndOwner(name, uid));
      err := None;
    }
  }

  /** After CreateAsset(a) with no earlier (name, uid) row, GetAsset(a.name, a.uid) returns `a`, data included. */
  lemma CreateThenGetAsset(rows: seq<Asset>, a: Asset)
    requires forall b :: b in rows ==> !(b.name == a.name && b.uid == a.uid)
    ensures QueryRow(Table(rows + [a], true), NameAndOwner(a.name, a.uid)) == Success(a)
  {
    WhereAppend(rows, [a], NameAndOwner(a.name, a.uid));
    assert Where([a], NameAndOwner(a.name, a.uid)) == [a];
  }

  /** GetAsset for owner u sees only u's rows: other owners' rows cannot change its answer. */
  lemma GetAssetSeesOnlyOwner(rows: seq<Asset>, online: bool, name: string, uid: int)
    ensures QueryRow(Table(rows, online), NameAndOwner(name, uid))
         == QueryRow(Table(Where(rows, OwnedBy(uid)), online), NameAndOwner(name, uid))
  {
    WhereNarrow(rows, OwnedBy(uid), NameAndOwner(name, uid));
  }

  /** ListAssets for owner u sees only u's rows. */
  lemma ListingSeesOnlyOwner(rows: seq<Asset>, uid: int)
    ensures Listing(rows, uid) == Listing(Where(rows, OwnedBy(uid)), uid)
  {
    WhereNarrow(rows, OwnedBy(uid), OwnedBy(uid));
  }

  /** DeleteAsset(name, u) removes exactly the (name, u) rows: every other owner's rows are as they were. */
  lemma DeleteAssetScope(rows: seq<Asset>, name: string, u: int, v: int)
    ensures Where(DeleteWhere(rows, NameAndOwner(name, u)), NameAndOwner(name, u)) == []
    ensures v != u ==> Where(DeleteWhere(rows, NameAndOwner(name, u)), OwnedBy(v)) == Where(rows, OwnedBy(v))
  {
    if v != u {
      WhereNarrow(rows, Not(NameAndOwner(name, u)), OwnedBy(v));
    }
  }

  class UserRepository {
    var rows: seq<User>
    var online: bool
    /** The next value of the sequence behind users.id. */
    var nextId: int

    /** `id` is the primary key and `login` is unique; ids come from the sequence. */
    ghost predicate Valid()
      reads this
    {
      && Distinct(rows, UserId)
      && Distinct(rows, UserLogin)
      && forall u :: u in rows ==> u.id < nextId
    }

    function View(): Table<User>
      reads this
    {
      Table(rows, online)
    }

    constructor (online: bool)
      ensures Valid() && rows == [] && this.online == online
    {
      rows := [];
      this.online := online;
      nextId := 1;
    }

    /** SELECT ... FROM users WHERE login = $1. */
    method FindByLogin(login: string) returns (r: Result<User, DbError>)
      ensures r == QueryRow(View(), LoginIs(login))
      ensures r.Success? ==> r.value in rows && r.value.login == login
      ensures r.Failure? <==> !online || !HasLogin(rows, login)
    {
      r := QueryRow(View(), LoginIs(login));
    }

    /**
     * INSERT INTO users (login, password_hash, created_at): the id is the
     * database's, never the caller's; a taken login is refused.
     */
    method CreateUser(u: User) returns (err: Option<DbError>)
      requires Valid()
      modifies this
      ensures Valid() && online == old(online)
      ensures err == None <==> old(online) && !HasLogin(old(rows), u.login)
      ensures err == None ==> rows == old(rows) + [User(old(nextId), u.login, u.passwordHash, u.createdAt)]
      ensures err == None ==> nextId == old(nextId) + 1
      ensures err != None ==> rows == old(rows) && nextId == old(nextId)
      ensures err != None ==> err.value == if old(online) then UniqueViolation else ConnectionFailure
    {
      if !online {
        return Some(ConnectionFailure);
      }
      if HasLogin(rows, u.login) {
        return Some(UniqueViolation);
      }
      var created := User(nextId, u.login, u.passwordHash, u.createdAt);
      AppendDistinct(rows, created, UserId);
      AppendDistinct(rows, created, UserLogin);
      rows := rows + [created];
      nextId := nextId + 1;
      err := None;
    }

    /** SELECT ... FROM users WHERE id = $1. */
    method GetUserByID(id: int) returns (r: Result<User, DbError>)
      ensures r == QueryRow(View(), UserIdIs(id))
      ensures r.Success? ==> r.value in rows && r.value.id == id
      ensures r.Failure? <==> !online || forall u :: u in rows ==> u.id != id
    {
      r := QueryRow(View(), UserIdIs(id));
    }
  }

  /** With logins unique, FindByLogin finds exactly the user holding the login. */
  lemma FindByLoginUnique(rows: seq<User>, u: User)
    requires Distinct(rows, UserLogin) && u in rows
    ensures QueryRow(Table(rows, true), LoginIs(u.login)) == Success(u)
  {
    QueryRowDistinct(Table(rows, true), LoginIs(u.login), UserLogin, u);
  }

  /** After CreateUser succeeds, FindByLogin returns the new row with the sequence's id. */
  lemma CreateUserThenFind(rows: seq<User>, nextId: int, u: User)
    requires !HasLogin(rows, u.login)
    ensures var created := User(nextId, u.login, u.passwordHash, u.createdAt);
            QueryRow(Table(rows + [created], true), LoginIs(u.login)) == Success(created)
  {
    var created := User(nextId, u.login, u.passwordHash, u.createdAt);
    WhereAppend(rows, [created], LoginIs(u.login));
    assert Where([created], LoginIs(u.login)) == [created];
  }
}
