/**
 * The request boundary of the asset handlers (internal/handlers/asset.go):
 * bearer-token extraction, asset-name extraction from the URL path, and the
 * order of checks in the four handlers, each modelled as a decision over an
 * abstract request, the session table and the asset table.
 *
 * Status codes and error bodies are those the handlers write; logging and the
 * writing of the response itself are not modelled.
 */
module Handlers {
  import opened Models
  import opened Sql
  import opened Repository
  import opened Service

  const BearerPrefix: string := "Bearer "
  const MethodDelete: string := "DELETE"

  const StatusBadRequest: int := 400
  const StatusUnauthorized: int := 401
  const StatusNotFound: int := 404
  const StatusMethodNotAllowed: int := 405
  const StatusInternalServerError: int := 500

  /**
   * What a handler reads from an http.Request: the method, the URL path, the
   * Authorization header ("" when absent) and the body, None when reading it fails.
   */
  datatype Request = Request(verb: string, path: string, authorization: string, body: Option<seq<byte>>)

  datatype Response =
    | Failed(status: int, message: string)  // http.Error with {"error": message}
    | Saved                                 // 200 {"status":"ok"}
    | Content(data: seq<byte>)              // 200 with the raw asset bytes
    | Listed(assets: seq<Asset>)            // 200 {"assets": [...]}

  /** A handler's response and the asset table it leaves behind. */
  datatype Outcome = Outcome(response: Response, assets: seq<Asset>)

  /** Why checkAuth refused: no bearer prefix (http.ErrNoCookie), or ValidateToken's error. */
  datatype AuthFailure = NoBearer | Rejected(reason: AuthError)

  // ---------------------------------------------------------------- strings

  /** strings.HasPrefix: `s` is `prefix` followed by something (case-sensitive, no trimming). */
  predicate HasPrefix(s: string, prefix: string): (b: bool)
    ensures b <==> exists rest :: s == prefix + rest
  {
    if |prefix| <= |s| && s[..|prefix|] == prefix then
      assert s == prefix + s[|prefix|..];
      true
    else
      false
  }

  /** strings.TrimPrefix: drops one leading copy of `prefix`, if there is one. */
  function TrimPrefix(s: string, prefix: string): (r: string)
    ensures HasPrefix(s, prefix) ==> s == prefix + r
    ensures !HasPrefix(s, prefix) ==> r == s
  {
    if HasPrefix(s, prefix) then s[|prefix|..] else s
  }

  /**
   * strings.Split with a one-character separator: the pieces between
   * separators, so one more piece than there are separators, and none of
   * them holding a separator.
   */
  function Split(s: string, sep: char): (parts: seq<string>)
    ensures |parts| == multiset(s)[sep] + 1
    ensures forall i :: 0 <= i < |parts| ==> sep !in parts[i]
  {
    if s == [] then [""]
    else
      assert s == [s[0]] + s[1..];
      var rest := Split(s[1..], sep);
      if s[0] == sep then [""] + rest
      else [[s[0]] + rest[0]] + rest[1..]
  }

  /** strings.Join with a one-character separator: the inverse of Split. */
  function Join(parts: seq<string>, sep: char): string
    requires |parts| >= 1
  {
    if |parts| == 1 then parts[0] else parts[0] + [sep] + Join(parts[1..], sep)
  }

  /** Joining the pieces gives back the string split. */
  lemma {:induction false} JoinSplit(s: string, sep: char)
    ensures Join(Split(s, sep), sep) == s
  {
    if s != [] {
      var rest := Split(s[1..], sep);
      JoinSplit(s[1..], sep);
      if s[0] == sep {
        assert ([""] + rest)[1..] == rest;
      } else {
        var parts := [[s[0]] + rest[0]] + rest[1..];
        if |rest| > 1 {
          assert parts[1..] == rest[1..];
        }
      }
    }
  }

  /** Splitting around a separator splits each side. */
  lemma {:induction false} SplitAppend(a: string, b: string, sep: char)
    ensures Split(a + [sep] + b, sep) == Split(a, sep) + Split(b, sep)
  {
    var s := a + [sep] + b;
    if a == [] {
      assert s == [sep] + b && s[1..] == b;
    } else {
      assert s[0] == a[0] && s[1..] == a[1..] + [sep] + b;
      SplitAppend(a[1..], b, sep);
    }
  }

  /** A string without the separator is one piece. */
  lemma {:induction false} SplitNoSep(s: string, sep: char)
    requires sep !in s
    ensures Split(s, sep) == [s]
  {
    if s != [] {
      SplitNoSep(s[1..], sep);
      assert s == [s[0]] + s[1..];
    }
  }

  /** Splitting the join of separator-free pieces gives back the pieces. */
  lemma {:induction false} SplitJoin(parts: seq<string>, sep: char)
    requires |parts| >= 1
    requires forall i :: 0 <= i < |parts| ==> sep !in parts[i]
    ensures Split(Join(parts, sep), sep) == parts
  {
    if |parts| == 1 {
      SplitNoSep(parts[0], sep);
    } else {
      SplitJoin(parts[1..], sep);
      SplitNoSep(parts[0], sep);
      SplitAppend(parts[0], Join(parts[1..], sep), sep);
      assert parts == [parts[0]] + parts[1..];
    }
  }

  // ------------------------------------------------------------ checkAuth

  /** The token of an `Authorization: Bearer <token>` header: case-sensitive prefix, trailing space included. */
  function BearerToken(authorization: string): (token: Option<string>)
    ensures token.Some? <==> HasPrefix(authorization, BearerPrefix)
    ensures token.Some? ==> authorization == BearerPrefix + token.value
  {
    if HasPrefix(authorization, BearerPrefix) then Some(TrimPrefix(authorization, BearerPrefix)) else None
  }

  /** The header carries token `t` exactly when it is "Bearer " followed by `t`. */
  lemma BearerTokenExact(authorization: string, t: string)
    ensures BearerToken(authorization) == Some(t) <==> authorization == BearerPrefix + t
  {
    if authorization == BearerPrefix + t {
      assert authorization[..|BearerPrefix|] == BearerPrefix;
      assert authorization[|BearerPrefix|..] == t;
    }
  }

  /**
   * The prefix is case-sensitive and includes the space; a bare "Bearer "
   * yields the empty token; only one prefix is removed.
   */
  lemma BearerTokenCases()
    ensures BearerToken("Bearer ") == Some("")
    ensures BearerToken("bearer abc") == None
    ensures BearerToken("Bearer") == None
    ensures BearerToken("Bearer Bearer abc") == Some("Bearer abc")
  {
    BearerTokenExact("Bearer ", "");
    BearerTokenExact("Bearer Bearer abc", "Bearer abc");
    assert "bearer abc"[..|BearerPrefix|] != BearerPrefix by {
      assert "bearer abc"[0] != BearerPrefix[0];
    }
  }

  /** checkAuth: the bearer token, then ValidateToken with the 24-hour lifetime. */
  function CheckAuth(authorization: string, sessions: Table<Session>, now: Timestamp): (r: Result<Session, AuthFailure>)
    ensures r == Failure(NoBearer) <==> !HasPrefix(authorization, BearerPrefix)
    ensures r.Success? ==> authorization == BearerPrefix + r.value.id
    ensures r.Success? ==> r.value in sessions.rows && now - r.value.createdAt <= SessionTTL
    ensures HasPrefix(authorization, BearerPrefix) ==>
              var token := TrimPrefix(authorization, BearerPrefix);
              (r == Failure(Rejected(InvalidToken)) <==> !sessions.online || !HasSessionId(sessions.rows, token))
    ensures HasPrefix(authorization, BearerPrefix) ==>
              (r.Failure? <==> Validate(sessions, SessionTTL, TrimPrefix(authorization, BearerPrefix), now).Failure?)
  {
    match BearerToken(authorization)
    case None => Failure(NoBearer)
    case Some(token) =>
      match Validate(sessions, SessionTTL, token, now)
      case Failure(e) => Failure(Rejected(e))
      case Success(s) => Success(s)
  }

  /**
   * checkAuth accepts the bearer of a stored session while it is live: with
   * session ids unique and the store reachable, "Bearer " + id gives that
   * session up to 24 hours after its creation and "session expired" after.
   */
  lemma CheckAuthStoredSession(sessions: Table<Session>, s: Session, now: Timestamp)
    requires sessions.online && Distinct(sessions.rows, SessionId) && s in sessions.rows
    ensures CheckAuth(BearerPrefix + s.id, sessions, now)
         == if now - s.createdAt > SessionTTL then Failure(Rejected(SessionExpired)) else Success(s)
  {
    BearerTokenExact(BearerPrefix + s.id, s.id);
    ValidateExpiry(sessions, SessionTTL, s, now);
  }

  /** Without the bearer prefix the session table is never consulted: any table, any time, the same refusal. */
  lemma NoBearerNoLookup(authorization: string, sessions1: Table<Session>, sessions2: Table<Session>,
                         now1: Timestamp, now2: Timestamp)
    requires !HasPrefix(authorization, BearerPrefix)
    ensures CheckAuth(authorization, sessions1, now1) == CheckAuth(authorization, sessions2, now2) == Failure(NoBearer)
  {
  }

  // ------------------------------------------------------------ asset names

  /** The asset name: the last '/'-separated segment, provided the path splits into at least 3 parts. */
  function AssetName(path: string): (name: Option<string>)
    ensures name.Some? <==> multiset(path)['/'] >= 2
    ensures name.Some? ==> '/' !in name.value
  {
    var parts := Split(path, '/');
    if |parts| < 3 then None else Some(parts[|parts| - 1])
  }

  /**
   * The asset name is whatever follows the last '/', and it is extracted
   * exactly when the part before that '/' holds another '/'.
   */
  lemma AssetNameLast(dir: string, name: string)
    requires '/' !in name
    ensures AssetName(dir + "/" + name) == if '/' in dir then Some(name) else None
  {
    SplitAppend(dir, name, '/');
    SplitNoSep(name, '/');
    assert dir + "/" + name == dir + ['/'] + name;
    assert '/' in dir <==> multiset(dir)['/'] >= 1;
  }

  /** Every extracted name is a suffix following a '/' of the path. */
  lemma AssetNameSuffix(path: string)
    requires AssetName(path).Some?
    ensures exists dir :: '/' in dir && path == dir + "/" + AssetName(path).value
  {
    var parts := Split(path, '/');
    var k := |parts| - 1;
    JoinSplit(path, '/');
    JoinSnoc(parts, '/');
    var dir := Join(parts[..k], '/');
    JoinTwo(parts[..k], '/');
    assert path == dir + "/" + parts[k];
  }

  /** The last piece of a join follows the last separator. */
  lemma {:induction false} JoinSnoc(parts: seq<string>, sep: char)
    requires |parts| >= 2
    ensures Join(parts, sep) == Join(parts[..|parts| - 1], sep) + [sep] + parts[|parts| - 1]
  {
    if |parts| > 2 {
      JoinSnoc(parts[1..], sep);
      assert parts[1..][..|parts| - 2] == parts[..|parts| - 1][1..];
    }
  }

  /** A join of two or more pieces contains the separator. */
  lemma JoinTwo(parts: seq<string>, sep: char)
    requires |parts| >= 2
    ensures sep in Join(parts, sep)
  {
    assert Join(parts, sep)[|parts[0]|] == sep;
  }

  /** A trailing slash gives the empty name, which is not rejected. */
  lemma AssetNameTrailingSlash()
    ensures AssetName("/api/asset/") == Some("")
  {
    var dir := "/api/asset";
    assert dir[0] == '/';
    assert "/api/asset/" == dir + "/" + "";
    AssetNameLast(dir, "");
  }

  /** A path with a single '/' splits into two parts and is rejected. */
  lemma AssetNameShortPath()
    ensures AssetName("/health") == None
  {
    assert "/health" == "" + "/" + "health";
    AssetNameLast("", "health");
  }

  // --------------------------------------------------------------- handlers

  const Unauthorized: Response := Failed(StatusUnauthorized, "unauthorized")
  const BadRequest: Response := Failed(StatusBadRequest, "bad request")

  /** POST /api/upload-asset/{name}: auth, name, body, then INSERT with the session's uid. */
  function UploadAsset(sessions: Table<Session>, assets: Table<Asset>, req: Request, now: Timestamp): (o: Outcome)
    ensures var auth := CheckAuth(req.authorization, sessions, now);
            var name := AssetName(req.path);
            && (auth.Failure? ==> o.response == Unauthorized)
            && (auth.Success? && name.None? ==> o.response == BadRequest)
            && (auth.Success? && name.Some? && req.body.None? ==> o.response == Failed(StatusBadRequest, "failed to read body"))
            && (auth.Success? && name.Some? && req.body.Some? && !assets.online ==>
                  o.response == Failed(StatusInternalServerError, "failed to save asset"))
    ensures o.response == Saved <==>
              CheckAuth(req.authorization, sessions, now).Success? && AssetName(req.path).Some? && req.body.Some? && assets.online
    ensures o.response == Saved ==>
              exists a :: o.assets == assets.rows + [a] && a.uid == CheckAuth(req.authorization, sessions, now).value.uid
                        && Some(a.name) == AssetName(req.path) && Some(a.data) == req.body && a.createdAt == now
    ensures o.response != Saved ==> o.assets == assets.rows
  {
    match CheckAuth(req.authorization, sessions, now)
    case Failure(_) => Outcome(Unauthorized, assets.rows)
    case Success(session) =>
      match AssetName(req.path)
      case None => Outcome(BadRequest, assets.rows)
      case Some(name) =>
        match req.body
        case None => Outcome(Failed(StatusBadRequest, "failed to read body"), assets.rows)
        case Some(data) =>
          if !assets.online then Outcome(Failed(StatusInternalServerError, "failed to save asset"), assets.rows)
          else Outcome(Saved, assets.rows + [Asset(name, session.uid, data, now)])
  }

  /** GET /api/asset/{name}: auth, name, then the caller's own asset of that name; any store error is 404. */
  function GetAsset(sessions: Table<Session>, assets: Table<Asset>, req: Request, now: Timestamp): (response: Response)
    ensures response.Content? ==>
              exists a :: a in assets.rows && a.data == response.data && Some(a.name) == AssetName(req.path)
                       && CheckAuth(req.authorization, sessions, now).Success?
                       && a.uid == CheckAuth(req.authorization, sessions, now).value.uid
    ensures var auth := CheckAuth(req.authorization, sessions, now);
            var name := AssetName(req.path);
            && (auth.Failure? ==> response == Unauthorized)
            && (auth.Success? && name.None? ==> response == BadRequest)
            && (auth.Success? && name.Some? ==>
                  && (response.Content? <==>
                        assets.online && exists a :: a in assets.rows && a.name == name.value && a.uid == auth.value.uid)
                  && (!response.Content? ==> response == Failed(StatusNotFound, "not found")))
  {
    match CheckAuth(req.authorization, sessions, now)
    case Failure(_) => Unauthorized
    case Success(session) =>
      match AssetName(req.path)
      case None => BadRequest
      case Some(name) =>
        match QueryRow(assets, NameAndOwner(name, session.uid))
        case Failure(_) => Failed(StatusNotFound, "not found")
        case Success(a) => Content(a.data)
  }

  /** GET /api/assets: auth, then the caller's assets without their data. */
  function ListAssets(sessions: Table<Session>, assets: Table<Asset>, req: Request, now: Timestamp): (response: Response)
    ensures response.Listed? ==>
              && CheckAuth(req.authorization, sessions, now).Success?
              && forall a :: a in response.assets ==> a.uid == CheckAuth(req.authorization, sessions, now).value.uid && a.data == []
    ensures response.Listed? <==> CheckAuth(req.authorization, sessions, now).Success? && assets.online
    ensures response.Listed? ==> response.assets == Listing(assets.rows, CheckAuth(req.authorization, sessions, now).value.uid)
    ensures var auth := CheckAuth(req.authorization, sessions, now);
            && (auth.Failure? ==> response == Unauthorized)
            && (auth.Success? && !assets.online ==> response == Failed(StatusInternalServerError, "failed to list assets"))
  {
    match CheckAuth(req.authorization, sessions, now)
    case Failure(_) => Unauthorized
    case Success(session) =>
      if !assets.online then Failed(StatusInternalServerError, "failed to list assets")
      else Listed(Listing(assets.rows, session.uid))
  }

  /** DELETE /api/asset/{name}: method, auth, name, then DELETE of the caller's assets of that name. */
  function DeleteAsset(sessions: Table<Session>, assets: Table<Asset>, req: Request, now: Timestamp): (o: Outcome)
    ensures o.response == Saved <==>
              req.verb == MethodDelete && CheckAuth(req.authorization, sessions, now).Success?
              && AssetName(req.path).Some? && assets.online
    ensures o.response == Saved ==>
              var uid := CheckAuth(req.authorization, sessions, now).value.uid;
              forall a :: a in o.assets <==> a in assets.rows && !(Some(a.name) == AssetName(req.path) && a.uid == uid)
    ensures o.response == Saved ==>
              o.assets == DeleteWhere(assets.rows, NameAndOwner(AssetName(req.path).value,
                                                                CheckAuth(req.authorization, sessions, now).value.uid))
    ensures o.response != Saved ==> o.assets == assets.rows
    ensures req.verb != MethodDelete ==> o.response == Failed(StatusMethodNotAllowed, "method not allowed")
    ensures var auth := CheckAuth(req.authorization, sessions, now);
            var name := AssetName(req.path);
            req.verb == MethodDelete ==>
              && (auth.Failure? ==> o.response == Unauthorized)
              && (auth.Success? && name.None? ==> o.response == BadRequest)
              && (auth.Success? && name.Some? && !assets.online ==>
                    o.response == Failed(StatusInternalServerError, "failed to delete asset"))
  {
    if req.verb != MethodDelete then Outcome(Failed(StatusMethodNotAllowed, "method not allowed"), assets.rows)
    else
      match CheckAuth(req.authorization, sessions, now)
      case Failure(_) => Outcome(Unauthorized, assets.rows)
      case Success(session) =>
        match AssetName(req.path)
        case None => Outcome(BadRequest, assets.rows)
        case Some(name) =>
          if !assets.online then Outcome(Failed(StatusInternalServerError, "failed to delete asset"), assets.rows)
          else Outcome(Saved, DeleteWhere(assets.rows, NameAndOwner(name, session.uid)))
  }

  // ----------------------------------------------------------------- lemmas

  /**
   * Authorization comes before path parsing and body reading: a request
   * that fails checkAuth gets 401, whatever its path and body, and changes nothing.
   */
  lemma UnauthorizedWhateverPath(sessions: Table<Session>, assets: Table<Asset>, req: Request, now: Timestamp,
                                 path: string, body: Option<seq<byte>>)
    requires CheckAuth(req.authorization, sessions, now).Failure?
    ensures var other := req.(path := path, body := body);
            && UploadAsset(sessions, assets, req, now) == UploadAsset(sessions, assets, other, now) == Outcome(Unauthorized, assets.rows)
            && GetAsset(sessions, assets, req, now) == GetAsset(sessions, assets, other, now) == Unauthorized
            && ListAssets(sessions, assets, req, now) == ListAssets(sessions, assets, other, now) == Unauthorized
            && (req.verb == MethodDelete ==>
                  DeleteAsset(sessions, assets, req, now) == DeleteAsset(sessions, assets, other, now) == Outcome(Unauthorized, assets.rows))
  {
  }

  /** DeleteAsset answers 405 to any other method before it looks at the token. */
  lemma MethodCheckedFirst(sessions: Table<Session>, assets: Table<Asset>, req: Request, now: Timestamp)
    requires req.verb != MethodDelete
    ensures DeleteAsset(sessions, assets, req, now) == Outcome(Failed(StatusMethodNotAllowed, "method not allowed"), assets.rows)
  {
  }

  /** Tenant isolation for GetAsset: the answer depends only on the rows owned by the session's user. */
  lemma GetSeesOnlyOwnRows(sessions: Table<Session>, rows1: seq<Asset>, rows2: seq<Asset>, online: bool,
                           req: Request, now: Timestamp)
    requires CheckAuth(req.authorization, sessions, now).Success?
    requires var uid := CheckAuth(req.authorization, sessions, now).value.uid;
             Where(rows1, OwnedBy(uid)) == Where(rows2, OwnedBy(uid))
    ensures GetAsset(sessions, Table(rows1, online), req, now) == GetAsset(sessions, Table(rows2, online), req, now)
  {
    var uid := CheckAuth(req.authorization, sessions, now).value.uid;
    if name :| AssetName(req.path) == Some(name) {
      GetAssetSeesOnlyOwner(rows1, online, name, uid);
      GetAssetSeesOnlyOwner(rows2, online, name, uid);
    }
  }

  /** Tenant isolation for ListAssets: the listing depends only on the rows owned by the session's user. */
  lemma ListSeesOnlyOwnRows(sessions: Table<Session>, rows1: seq<Asset>, rows2: seq<Asset>, online: bool,
                            req: Request, now: Timestamp)
    requires CheckAuth(req.authorization, sessions, now).Success?
    requires var uid := CheckAuth(req.authorization, sessions, now).value.uid;
             Where(rows1, OwnedBy(uid)) == Where(rows2, OwnedBy(uid))
    ensures ListAssets(sessions, Table(rows1, online), req, now) == ListAssets(sessions, Table(rows2, online), req, now)
  {
    var uid := CheckAuth(req.authorization, sessions, now).value.uid;
    ListingSeesOnlyOwner(rows1, uid);
    ListingSeesOnlyOwner(rows2, uid);
  }

  /** Tenant isolation for UploadAsset: every other user's rows stay exactly as they were. */
  lemma UploadTouchesOnlyOwnRows(sessions: Table<Session>, assets: Table<Asset>, req: Request, now: Timestamp, v: int)
    requires CheckAuth(req.authorization, sessions, now).Failure? || v != CheckAuth(req.authorization, sessions, now).value.uid
    ensures Where(UploadAsset(sessions, assets, req, now).assets, OwnedBy(v)) == Where(assets.rows, OwnedBy(v))
  {
    var auth := CheckAuth(req.authorization, sessions, now);
    if auth.Success? && AssetName(req.path).Some? && req.body.Some? {
      var a := Asset(AssetName(req.path).value, auth.value.uid, req.body.value, now);
      WhereAppend(assets.rows, [a], OwnedBy(v));
      assert Where([a], OwnedBy(v)) == [];
    }
  }

  /** Tenant isolation for DeleteAsset: every other user's rows stay exactly as they were. */
  lemma DeleteTouchesOnlyOwnRows(sessions: Table<Session>, assets: Table<Asset>, req: Request, now: Timestamp, v: int)
    requires CheckAuth(req.authorization, sessions, now).Failure? || v != CheckAuth(req.authorization, sessions, now).value.uid
    ensures Where(DeleteAsset(sessions, assets, req, now).assets, OwnedBy(v)) == Where(assets.rows, OwnedBy(v))
  {
    var auth := CheckAuth(req.authorization, sessions, now);
    if auth.Success? && AssetName(req.path).Some? {
      DeleteAssetScope(assets.rows, AssetName(req.path).value, auth.value.uid, v);
    }
  }

  /**
   * An upload followed by a GET of the same name with the same token returns
   * the uploaded bytes, provided the token is live at both times and the
   * user had no asset of that name.
   */
  lemma UploadThenGet(sessions: Table<Session>, assets: Table<Asset>, authorization: string,
                      upload: string, get: string, data: seq<byte>, now1: Timestamp, now2: Timestamp)
    requires assets.online
    requires CheckAuth(authorization, sessions, now1).Success? && CheckAuth(authorization, sessions, now2).Success?
    requires AssetName(upload).Some? && AssetName(get) == AssetName(upload)
    requires forall b :: b in assets.rows ==>
               !(Some(b.name) == AssetName(upload) && b.uid == CheckAuth(authorization, sessions, now1).value.uid)
    ensures var o := UploadAsset(sessions, assets, Request("POST", upload, authorization, Some(data)), now1);
            && o.response == Saved
            && GetAsset(sessions, Table(o.assets, true), Request("GET", get, authorization, None), now2) == Content(data)
  {
    var s := CheckAuth(authorization, sessions, now1).value;
    assert CheckAuth(authorization, sessions, now2).value == s;
    var a := Asset(AssetName(upload).value, s.uid, data, now1);
    CreateThenGetAsset(assets.rows, a);
  }

  /**
   * An upload shows up in the caller's listing: after a successful upload the
   * listing is the previous one with the new asset, without its data, at the end.
   */
  lemma UploadThenList(sessions: Table<Session>, assets: Table<Asset>, req: Request, now: Timestamp,
                       listing: Request, later: Timestamp)
    requires UploadAsset(sessions, assets, req, now).response == Saved
    requires CheckAuth(listing.authorization, sessions, later) == CheckAuth(req.authorization, sessions, now)
    ensures var o := UploadAsset(sessions, assets, req, now);
            var session := CheckAuth(req.authorization, sessions, now).value;
            ListAssets(sessions, Table(o.assets, true), listing, later)
              == Listed(Listing(assets.rows, session.uid)
                        + [Asset(AssetName(req.path).value, session.uid, [], now)])
  {
    var session := CheckAuth(req.authorization, sessions, now).value;
    var a := Asset(AssetName(req.path).value, session.uid, req.body.value, now);
    ListingSnoc(assets.rows, a, session.uid);
  }

  /** A deleted asset is gone for its owner: a later GET of the same name answers 404. */
  lemma DeleteThenGet(sessions: Table<Session>, assets: Table<Asset>, req: Request, now: Timestamp,
                      get: Request, later: Timestamp)
    requires DeleteAsset(sessions, assets, req, now).response == Saved
    requires CheckAuth(get.authorization, sessions, later) == CheckAuth(req.authorization, sessions, now)
    requires AssetName(get.path) == AssetName(req.path)
    ensures var o := DeleteAsset(sessions, assets, req, now);
            GetAsset(sessions, Table(o.assets, true), get, later) == Failed(StatusNotFound, "not found")
  {
    var session := CheckAuth(req.authorization, sessions, now).value;
    DeleteAssetScope(assets.rows, AssetName(req.path).value, session.uid, session.uid);
  }
}
