/**
 * The end-to-end flow of the service: alice logs in, uploads "report.txt",
 * reads it back, logs in again, and finds her first token revoked while the
 * second one still reaches the same bytes.
 */
module Scenario {
  import opened Models
  import opened Sql
  import opened Utils
  import opened Repository
  import opened Service
  import opened Handlers

  const UploadPath: string := "/api/upload-asset/report.txt"
  const AssetPath: string := "/api/asset/report.txt"

  /** The upload path names "report.txt". */
  lemma UploadPathName()
    ensures AssetName(UploadPath) == Some("report.txt")
  {
    var dir := "/api/upload-asset";
    assert dir[0] == '/';
    assert UploadPath == dir + "/" + "report.txt";
    AssetNameLast(dir, "report.txt");
  }

  /** The asset path names "report.txt". */
  lemma AssetPathName()
    ensures AssetName(AssetPath) == Some("report.txt")
  {
    var dir := "/api/asset";
    assert dir[0] == '/';
    assert AssetPath == dir + "/" + "report.txt";
    AssetNameLast(dir, "report.txt");
  }

  /** A freshly created session admits its bearer while it is live. */
  lemma BearerOfNewSession(rows: seq<Session>, s: Session, now: Timestamp)
    requires !HasSessionId(rows, s.id) && now - s.createdAt <= SessionTTL
    ensures CheckAuth(BearerPrefix + s.id, Table(rows + [s], true), now) == Success(s)
  {
    BearerTokenExact(BearerPrefix + s.id, s.id);
    WhereAppend(rows, [s], IdIs(s.id));
    assert Where([s], IdIs(s.id)) == [s];
  }

  /**
   * The scenario, for any user table in which "alice" is unique and stores
   * the hash of "correct-pw", any random bytes yielding two distinct fresh
   * tokens, and request times within the lifetime of the token they use.
   * The paths are any that name "report.txt", such as UploadPath and
   * AssetPath (UploadPathName, AssetPathName).
   */
  lemma AliceScenario(users: Table<User>, sessions: Table<Session>, assets: Table<Asset>, sum: string -> Digest,
                      alice: User, ip: string, hello: seq<byte>, random1: seq<byte>, random2: seq<byte>,
                      uploadPath: string, assetPath: string,
                      t1: Timestamp, t2: Timestamp, t3: Timestamp, t4: Timestamp, t5: Timestamp)
    requires AssetName(uploadPath) == Some("report.txt") && AssetName(assetPath) == Some("report.txt")
    requires users.online && sessions.online && assets.online
    requires Distinct(users.rows, UserLogin) && alice in users.rows
    requires alice.login == "alice" && alice.passwordHash == Md5Hash(sum, "correct-pw")
    requires |random1| >= TokenBytes && |random2| >= TokenBytes
    requires TokenFrom(TokenBytes, random1).value != TokenFrom(TokenBytes, random2).value
    requires !HasSessionId(sessions.rows, TokenFrom(TokenBytes, random1).value)
    requires !HasSessionId(sessions.rows, TokenFrom(TokenBytes, random2).value)
    requires forall a :: a in assets.rows ==> !(a.name == "report.txt" && a.uid == alice.id)
    requires t2 - t1 <= SessionTTL && t3 - t1 <= SessionTTL && t5 - t4 <= SessionTTL
    ensures var token1 := TokenFrom(TokenBytes, random1).value;
            var token2 := TokenFrom(TokenBytes, random2).value;
            // login as alice: token1
            var login1 := LoginEffect(users, sessions, sum, "alice", "correct-pw", ip, t1, random1, true);
            var sessions1 := Table(login1.sessions, true);
            // upload report.txt with token1
            var upload := UploadAsset(sessions1, assets, Request("POST", uploadPath, BearerPrefix + token1, Some(hello)), t2);
            var assets1 := Table(upload.assets, true);
            // login again: token2
            var login2 := LoginEffect(users, sessions1, sum, "alice", "correct-pw", ip, t4, random2, true);
            var sessions2 := Table(login2.sessions, true);
            && login1.result == Success(token1)
            && upload.response == Saved
            && GetAsset(sessions1, assets1, Request("GET", assetPath, BearerPrefix + token1, None), t3) == Content(hello)
            && login2.result == Success(token2)
            && GetAsset(sessions2, assets1, Request("GET", assetPath, BearerPrefix + token1, None), t5) == Unauthorized
            && GetAsset(sessions2, assets1, Request("GET", assetPath, BearerPrefix + token2, None), t5) == Content(hello)
  {
    var token1 := TokenFrom(TokenBytes, random1).value;
    var token2 := TokenFrom(TokenBytes, random2).value;

    LoginSucceeds(users, sessions, sum, alice, "correct-pw", ip, t1, random1);
    var login1 := LoginEffect(users, sessions, sum, "alice", "correct-pw", ip, t1, random1, true);
    var remaining1 := DeleteWhere(sessions.rows, UidIs(alice.id));
    var s1 := Session(token1, alice.id, ip, t1);
    var sessions1 := Table(login1.sessions, true);
    BearerOfNewSession(remaining1, s1, t2);
    BearerOfNewSession(remaining1, s1, t3);

    var report := Asset("report.txt", alice.id, hello, t2);
    UploadThenGet(sessions1, assets, BearerPrefix + token1, uploadPath, assetPath, hello, t2, t3);
    var assets1 := Table(assets.rows + [report], true);

    LoginSucceeds(users, sessions1, sum, alice, "correct-pw", ip, t4, random2);
    var remaining2 := DeleteWhere(login1.sessions, UidIs(alice.id));
    var s2 := Session(token2, alice.id, ip, t4);
    var sessions2 := Table(remaining2 + [s2], true);

    SecondLoginRevokesFirst(users, sessions, sum, SessionTTL, "alice", "correct-pw", "correct-pw", ip, ip,
                            t1, t4, t5, random1, random2, true, true);
    BearerOfNewSession(remaining2, s2, t5);
    CreateThenGetAsset(assets.rows, report);
  }
}
