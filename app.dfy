/**
 * The state of the access-control component and its three handlers:
 * `addUser`, `toggleUserStatus` and `processQRCode`. Browser storage is the
 * pair of fields `storedUsers` and `storedLog`, written whole after each
 * change; the clock is the argument `now`.
 */
module App {

  import opened Wrappers
  import opened JsString
  import opened Base64
  import opened AccessCode
  import opened Directory
  import opened AccessLog
  import opened Decision

  /**
   * The two users the load effect seeds when storage holds no users. Their
   * codes are `'ACC-001-' + btoa(email).slice(0, 8)` and the same with
   * `ACC-002-`, written out here; `DemoCodes` checks them.
   */
  function DemoUsers(now: nat): (users: seq<User>)
    ensures |users| == 2 && WellFormed(users)
    ensures forall j :: 0 <= j < |users| ==> users[j].active
  {
    [ User("1", "Juan Pérez", "juan@ejemplo.com", "ACC-001-anVhbkBl", now, true),
      User("2", "María García", "maria@ejemplo.com", "ACC-002-bWFyaWFA", now, true) ]
  }

  lemma AllLatin1(s: string)
    requires forall k :: 0 <= k < |s| ==> s[k] as int < 256
    ensures Latin1(s).Some? && |Latin1(s).value| == |s|
    ensures forall k :: 0 <= k < |s| ==> Latin1(s).value[k] == s[k] as int
  {
  }

  /** The `btoa` fragment of a Latin-1 string of six or more characters, from its first six. */
  lemma FragmentOfSix(s: string, b0: Byte, b1: Byte, b2: Byte, b3: Byte, b4: Byte, b5: Byte)
    requires |s| >= 6 && forall k :: 0 <= k < |s| ==> s[k] as int < 256
    requires s[0] as int == b0 && s[1] as int == b1 && s[2] as int == b2
    requires s[3] as int == b3 && s[4] as int == b4 && s[5] as int == b5
    ensures Btoa(s).Some?
    ensures SliceFirst(Btoa(s).value, FragmentLength) == EncodeGroup(b0, b1, b2) + EncodeGroup(b3, b4, b5)
  {
    AllLatin1(s);
    var b := Latin1(s).value;
    assert b[..6] == [b0, b1, b2, b3, b4, b5];
    EncodePrefix(b, 2);
    EncodeCons(b[..6]);
    EncodeCons(b[..6][3..]);
    assert b[..6][3..][3..] == [];
  }

  /** The two groups of the first demo user's fragment. */
  lemma JuanGroups()
    ensures EncodeGroup(106, 117, 97) == "anVh" && EncodeGroup(110, 64, 101) == "bkBl"
  {
  }

  /** The two groups of the second demo user's fragment. */
  lemma MariaGroups()
    ensures EncodeGroup(109, 97, 114) == "bWFy" && EncodeGroup(105, 97, 64) == "aWFA"
  {
  }

  /** The first demo user's code is `'ACC-001-' + btoa(email).slice(0, 8)` of its email. */
  lemma JuanCode(u: User)
    requires u.email == "juan@ejemplo.com" && u.qrCode == "ACC-001-anVhbkBl"
    ensures Btoa(u.email).Some? && u.qrCode == "ACC-001-" + SliceFirst(Btoa(u.email).value, FragmentLength)
  {
    var s := u.email;
    assert forall k :: 0 <= k < |s| ==> s[k] as int < 256;
    FragmentOfSix(s, 106, 117, 97, 110, 64, 101);
    JuanGroups();
  }

  /** The second demo user's code is `'ACC-002-' + btoa(email).slice(0, 8)` of its email. */
  lemma MariaCode(u: User)
    requires u.email == "maria@ejemplo.com" && u.qrCode == "ACC-002-bWFyaWFA"
    ensures Btoa(u.email).Some? && u.qrCode == "ACC-002-" + SliceFirst(Btoa(u.email).value, FragmentLength)
  {
    var s := u.email;
    assert forall k :: 0 <= k < |s| ==> s[k] as int < 256;
    FragmentOfSix(s, 109, 97, 114, 105, 97, 64);
    MariaGroups();
  }

  /** The written-out demo codes are `prefix + btoa(email).slice(0, 8)` of each demo user's own email. */
  lemma DemoCodes(now: nat)
    ensures var users := DemoUsers(now);
      Btoa(users[0].email).Some? && Btoa(users[1].email).Some? &&
      users[0].qrCode == "ACC-001-" + SliceFirst(Btoa(users[0].email).value, FragmentLength) &&
      users[1].qrCode == "ACC-002-" + SliceFirst(Btoa(users[1].email).value, FragmentLength)
  {
    JuanCode(DemoUsers(now)[0]);
    MariaCode(DemoUsers(now)[1]);
  }

  class AccessControl {
    var users: seq<User>
    var accessLog: seq<LogEntry>
    var newUserName: string
    var newUserEmail: string
    var scanResult: Option<ScanResult>
    /** What storage holds under `qr-users`. */
    var storedUsers: Option<seq<User>>
    /** What storage holds under `qr-access-log`. */
    var storedLog: Option<seq<LogEntry>>

    /** Storage mirrors the state: the users always, the log once a decision has been written. */
    ghost predicate Valid()
      reads this
    {
      storedUsers == Some(users) &&
      (storedLog == Some(accessLog) || (storedLog == None && accessLog == []))
    }

    /**
     * Mounting: the initial `useState` values, then the load effect, which
     * takes the saved collections or seeds and stores the demo users.
     */
    constructor (savedUsers: Option<seq<User>>, savedLog: Option<seq<LogEntry>>, now: nat)
      ensures Valid()
      ensures users == (if savedUsers.Some? then savedUsers.value else DemoUsers(now))
      ensures accessLog == (if savedLog.Some? then savedLog.value else [])
      ensures storedLog == savedLog
      ensures newUserName == "" && newUserEmail == "" && scanResult == None
    {
      newUserName, newUserEmail, scanResult := "", "", None;
      if savedUsers.Some? {
        users := savedUsers.value;
      } else {
        users := DemoUsers(now);
      }
      storedUsers := Some(users);
      storedLog := savedLog;
      accessLog := if savedLog.Some? then savedLog.value else [];
    }

    /** The name field's `onChange`. */
    method SetNewUserName(s: string)
      modifies this
      ensures newUserName == s
      ensures users == old(users) && accessLog == old(accessLog) && newUserEmail == old(newUserEmail)
      ensures scanResult == old(scanResult) && storedUsers == old(storedUsers) && storedLog == old(storedLog)
    {
      newUserName := s;
    }

    /** The email field's `onChange`. */
    method SetNewUserEmail(s: string)
      modifies this
      ensures newUserEmail == s
      ensures users == old(users) && accessLog == old(accessLog) && newUserName == old(newUserName)
      ensures scanResult == old(scanResult) && storedUsers == old(storedUsers) && storedLog == old(storedLog)
    {
      newUserEmail := s;
    }

    /**
     * `addUser`. A blank name (the alert) or a `btoa` failure (the thrown
     * error) changes nothing; otherwise exactly one user is appended, stored,
     * and both fields are cleared. `outcome` is what the alert reports.
     */
    method AddUser(now: nat) returns (outcome: Result<User, AddError>)
      requires Valid()
      modifies this
      ensures Valid()
      ensures outcome == NewUser(now, old(newUserName), old(newUserEmail))
      ensures if outcome.Success? then
          users == old(users) + [outcome.value] && newUserName == "" && newUserEmail == ""
        else
          users == old(users) && newUserName == old(newUserName) && newUserEmail == old(newUserEmail)
      ensures WellFormed(old(users)) ==> WellFormed(users)
      ensures accessLog == old(accessLog) && scanResult == old(scanResult) && storedLog == old(storedLog)
    {
      outcome := NewUser(now, newUserName, newUserEmail);
      if outcome.Success? {
        NewUserWellFormedIf(users, now, newUserName, newUserEmail);
        AppendUser(outcome.value);
      }
    }

    /** The success path of `addUser`: append the user, store the users, clear both fields. */
    method AppendUser(u: User)
      requires Valid()
      modifies this
      ensures Valid()
      ensures users == old(users) + [u] && newUserName == "" && newUserEmail == ""
      ensures accessLog == old(accessLog) && scanResult == old(scanResult) && storedLog == old(storedLog)
    {
      users := users + [u];
      storedUsers := Some(users);
      newUserName := "";
      newUserEmail := "";
    }

    /** `toggleUserStatus`: flip `active` of the users with this id, and store. */
    method ToggleUserStatus(userId: string)
      requires Valid()
      modifies this
      ensures Valid()
      ensures users == ToggleStatus(old(users), userId)
      ensures WellFormed(old(users)) ==> WellFormed(users)
      ensures accessLog == old(accessLog) && newUserName == old(newUserName) && newUserEmail == old(newUserEmail)
      ensures scanResult == old(scanResult) && storedLog == old(storedLog)
    {
      ToggleStatusWellFormedIf(users, userId);
      users := ToggleStatus(users, userId);
      storedUsers := Some(users);
    }

    /**
     * `processQRCode`: decide, put the entry in front of the log keeping at
     * most `MaxEntries`, store the log, and show the result. The users are
     * not touched.
     */
    method ProcessQRCode(code: string, now: nat)
      requires Valid()
      modifies this
      ensures Valid()
      ensures accessLog == Record(old(accessLog), Evaluate(old(users), code, now))
      ensures storedLog == Some(accessLog)
      ensures scanResult == Some(ScanOf(old(users), code, now))
      ensures users == old(users) && storedUsers == old(storedUsers)
      ensures newUserName == old(newUserName) && newUserEmail == old(newUserEmail)
    {
      var entry := Evaluate(users, code, now);
      accessLog := Record(accessLog, entry);
      storedLog := Some(accessLog);
      scanResult := Some(ScanOf(users, code, now));
    }

    /** The "Permitidos" figure: how many logged decisions were grants. */
    function GrantedStat(): (n: nat)
      reads this
      ensures n <= |accessLog|
    {
      GrantedCount(accessLog)
    }
  }

  lemma NewUserWellFormedIf(users: seq<User>, now: nat, name: string, email: string)
    requires NewUser(now, name, email).Success?
    ensures WellFormed(users) ==> WellFormed(users + [NewUser(now, name, email).value])
  {
    if WellFormed(users) {
      NewUserWellFormed(users, now, name, email);
    }
  }

  /** `ToggleStatusWellFormed` as an implication, for a directory that may not be well formed. */
  lemma ToggleStatusWellFormedIf(users: seq<User>, id: string)
    ensures WellFormed(users) ==> WellFormed(ToggleStatus(users, id))
  {
    if WellFormed(users) {
      ToggleStatusWellFormed(users, id);
    }
  }
}
