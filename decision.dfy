/**
 * The decision `processQRCode` takes: look the presented code up among the
 * active users and build the log entry and the on-screen result.
 */
module Decision {

  import opened Wrappers
  import opened Arith
  import opened JsString
  import opened Directory
  import opened AccessLog

  /** The name logged when no active user has the code. */
  const UnknownName: string := "Desconocido"

  /**
   * The log entry for presenting `code` at clock reading `now`. A user found
   * contributes `user.id || null` and `user.name || 'Desconocido'`, so an
   * empty id or name falls back like a missing user's.
   */
  function Evaluate(users: seq<User>, code: string, now: nat): (e: LogEntry)
    ensures e.id == NatToString(now) && e.qrCode == code && e.timestamp == now
    ensures e.status == Granted <==> exists i :: 0 <= i < |users| && Matches(users[i], code)
    ensures e.status == Denied ==> e.userId == None && e.userName == UnknownName
  {
    match FindActive(users, code)
    case None => LogEntry(NatToString(now), None, UnknownName, code, now, Denied)
    case Some(i) =>
      var u := users[i];
      LogEntry(NatToString(now), if u.id != "" then Some(u.id) else None,
               if u.name != "" then u.name else UnknownName, code, now, Granted)
  }

  /**
   * In a well-formed directory a grant names the first active user in list
   * order whose code is the presented one.
   */
  lemma EvaluateGranted(users: seq<User>, code: string, now: nat, i: nat)
    requires WellFormed(users)
    requires i < |users| && Matches(users[i], code)
    requires forall j :: 0 <= j < i ==> !Matches(users[j], code)
    ensures Evaluate(users, code, now).status == Granted
    ensures Evaluate(users, code, now).userId == Some(users[i].id)
    ensures Evaluate(users, code, now).userName == users[i].name
  {
    var r := FindActive(users, code);
    assert r.Some?;
    assert r.value == i by {
      assert !(r.value < i);
      assert !(i < r.value);
    }
  }

  /** A code that only inactive users carry, or nobody, is denied. */
  lemma InactiveNeverGranted(users: seq<User>, code: string, now: nat)
    requires forall j :: 0 <= j < |users| && users[j].qrCode == code ==> !users[j].active
    ensures Evaluate(users, code, now) == LogEntry(NatToString(now), None, UnknownName, code, now, Denied)
  {
  }

  /** What the scan screen shows: `{ success: !!user, user: user?.name, time }`. */
  datatype ScanResult = ScanResult(success: bool, user: Option<string>, time: nat)

  function ScanOf(users: seq<User>, code: string, now: nat): (s: ScanResult)
    ensures s.success <==> Evaluate(users, code, now).status == Granted
    ensures s.user.Some? <==> s.success
    ensures s.success ==>
      exists i :: 0 <= i < |users| && Matches(users[i], code) &&
        (forall j :: 0 <= j < i ==> !Matches(users[j], code)) && s.user == Some(users[i].name)
    ensures s.time == now
  {
    match FindActive(users, code)
    case None => ScanResult(false, None, now)
    case Some(i) => ScanResult(true, Some(users[i].name), now)
  }

  /** `users.filter(u => u.active)`. */
  function ActiveUsers(users: seq<User>): (r: seq<User>)
    ensures |r| <= |users|
    ensures forall k :: 0 <= k < |r| ==> r[k].active && r[k] in users
    ensures forall j :: 0 <= j < |users| && users[j].active ==> users[j] in r
  {
    if users == [] then []
    else if users[0].active then [users[0]] + ActiveUsers(users[1..])
    else ActiveUsers(users[1..])
  }

  /** The filter keeps one user exactly when that user is active. */
  lemma ActiveUsersOne(u: User)
    ensures ActiveUsers([u]) == if u.active then [u] else []
  {
    assert [u][1..] == [];
  }

  /** The filter distributes over concatenation, so it keeps the order of the directory. */
  lemma {:induction false} ActiveUsersConcat(a: seq<User>, b: seq<User>)
    ensures ActiveUsers(a + b) == ActiveUsers(a) + ActiveUsers(b)
  {
    if a == [] {
      assert a + b == b;
    } else {
      assert (a + b)[0] == a[0];
      assert (a + b)[1..] == a[1..] + b;
      ActiveUsersConcat(a[1..], b);
    }
  }

  /** The users offered as simulated scans: `users.filter(u => u.active).slice(0, 4)`. */
  function ScanButtons(users: seq<User>): (r: seq<User>)
    ensures |r| == Min(4, |ActiveUsers(users)|)
    ensures r == ActiveUsers(users)[..|r|]
    ensures forall k :: 0 <= k < |r| ==> r[k].active && r[k] in users
  {
    var active := ActiveUsers(users);
    if |active| <= 4 then active else active[..4]
  }

  /** A simulated scan presents an active user's own code, so it is always granted. */
  lemma ScanButtonGranted(users: seq<User>, k: nat, now: nat)
    requires k < |ScanButtons(users)|
    ensures Evaluate(users, ScanButtons(users)[k].qrCode, now).status == Granted
  {
    var u := ScanButtons(users)[k];
    var i :| 0 <= i < |users| && users[i] == u;
    assert Matches(users[i], u.qrCode);
  }

  /**
   * One active and one inactive attendee: the active one is let in under
   * their name, the inactive one and an unknown code are turned away.
   */
  lemma Scenario(now: nat)
    ensures var p1 := User("1", "Juan Pérez", "", "ACC-001-XXXX", 0, true);
      var p2 := User("2", "María García", "", "ACC-002-YYYY", 0, false);
      var users := [p1, p2];
      Evaluate(users, "ACC-001-XXXX", now).status == Granted &&
      Evaluate(users, "ACC-001-XXXX", now).userName == "Juan Pérez" &&
      Evaluate(users, "ACC-002-YYYY", now).status == Denied &&
      Evaluate(users, "ACC-999-ZZZZ", now).userName == UnknownName
  {
    var p1 := User("1", "Juan Pérez", "", "ACC-001-XXXX", 0, true);
    var p2 := User("2", "María García", "", "ACC-002-YYYY", 0, false);
    EvaluateGranted([p1, p2], "ACC-001-XXXX", now, 0);
  }
}
