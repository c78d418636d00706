/**
 * The user directory: the `users` collection, the lookup `processQRCode`
 * performs on it, the map `toggleUserStatus` applies to it, and the user
 * `addUser` builds.
 */
module Directory {

  import opened Wrappers
  import opened JsString
  import opened AccessCode

  /** One registered user. `createdAt` is the clock reading `toISOString` formats. */
  datatype User = User(id: string, name: string, email: string, qrCode: string, createdAt: nat, active: bool)

  /** The predicate `processQRCode` passes to `find`. */
  predicate Matches(u: User, code: string)
  {
    u.qrCode == code && u.active
  }

  /**
   * `users.find(u => u.qrCode === code && u.active)`, as the position of the
   * user it returns: the first user in list order with that exact code that is
   * active, and none when no active user has the code.
   */
  function FindActive(users: seq<User>, code: string): (r: Option<nat>)
    ensures r.Some? ==> r.value < |users| && users[r.value].qrCode == code && users[r.value].active
    ensures r.Some? ==> forall j :: 0 <= j < r.value ==> !Matches(users[j], code)
    ensures r.None? <==> forall j :: 0 <= j < |users| ==> !Matches(users[j], code)
  {
    if users == [] then None
    else if Matches(users[0], code) then Some(0)
    else match FindActive(users[1..], code)
      case None => None
      case Some(i) => Some(i + 1)
  }

  /** The callback of `toggleUserStatus`'s `map`: `{ ...u, active: !u.active }` for the given id. */
  function Toggle(u: User, id: string): User
  {
    if u.id == id then u.(active := !u.active) else u
  }

  /** `users.map(u => u.id === userId ? { ...u, active: !u.active } : u)`. */
  function ToggleStatus(users: seq<User>, id: string): (r: seq<User>)
    ensures |r| == |users|
  {
    if users == [] then [] else [Toggle(users[0], id)] + ToggleStatus(users[1..], id)
  }

  /**
   * Position by position, a toggle flips `active` of exactly the users with
   * the given id and leaves every other field and every other user as it was.
   */
  lemma {:induction false} ToggleStatusAt(users: seq<User>, id: string, i: nat)
    requires i < |users|
    ensures var r := ToggleStatus(users, id)[i];
      r.id == users[i].id && r.name == users[i].name && r.email == users[i].email &&
      r.qrCode == users[i].qrCode && r.createdAt == users[i].createdAt &&
      (r.active <==> (if users[i].id == id then !users[i].active else users[i].active))
  {
    if i > 0 {
      ToggleStatusAt(users[1..], id, i - 1);
    }
  }

  /** Toggling the same id twice restores the directory. */
  lemma ToggleStatusTwice(users: seq<User>, id: string)
    ensures ToggleStatus(ToggleStatus(users, id), id) == users
  {
    var once := ToggleStatus(users, id);
    var twice := ToggleStatus(once, id);
    forall i | 0 <= i < |users|
      ensures twice[i] == users[i]
    {
      ToggleStatusAt(users, id, i);
      ToggleStatusAt(once, id, i);
    }
  }

  /** An id no user has leaves the directory as it was. */
  lemma ToggleStatusAbsent(users: seq<User>, id: string)
    requires forall j :: 0 <= j < |users| ==> users[j].id != id
    ensures ToggleStatus(users, id) == users
  {
    forall i | 0 <= i < |users|
      ensures ToggleStatus(users, id)[i] == users[i]
    {
      ToggleStatusAt(users, id, i);
    }
  }

  /** Why `addUser` adds nobody. */
  datatype AddError =
    | EmptyName         // the name is empty after trimming: the alert, and no change
    | InvalidCharacter  // `btoa` threw on a character above U+00FF: no change

  /**
   * The user `addUser` builds from the two input fields, or the reason it
   * builds none. The name is required after trimming; the code is built from
   * the untrimmed fields, the stored name and email are trimmed.
   */
  function NewUser(now: nat, name: string, email: string): (r: Result<User, AddError>)
    ensures r == Failure(EmptyName) <==> AllTrimmable(name)
    ensures r.Success? ==>
      r.value.name == Trim(name) && r.value.email == Trim(email) && r.value.active && r.value.createdAt == now
  {
    var trimmed := Trim(name);
    if trimmed == [] then Failure(EmptyName)
    else
      var code := MakeCode(now, name, email);
      if code.None? then Failure(InvalidCharacter)
      else Success(User(NatToString(now), trimmed, Trim(email), code.value, now, true))
  }

  /** `btoa` throwing is the only other way `addUser` can add nobody. */
  lemma NewUserInvalidCharacter(now: nat, name: string, email: string)
    ensures NewUser(now, name, email) == Failure(InvalidCharacter) <==>
      !AllTrimmable(name) && exists k :: 0 <= k < |CodeSource(name, email)| && CodeSource(name, email)[k] as int >= 256
  {
    MakeCodeDefined(now, name, email);
  }

  /** A new user's id reads back as the clock and its code is the one line 101 builds. */
  lemma NewUserIdentity(now: nat, name: string, email: string)
    requires NewUser(now, name, email).Success?
    ensures var u := NewUser(now, name, email).value;
      AllDigits(u.id) && DigitsValue(u.id) == now && u.qrCode == MakeCode(now, name, email).value
  {
    NatToStringValue(now);
  }

  /** Every id and every name is a non-empty string, as the `||` fallbacks of `processQRCode` assume. */
  predicate WellFormed(users: seq<User>)
  {
    forall j :: 0 <= j < |users| ==> users[j].id != "" && users[j].name != ""
  }

  lemma ToggleStatusWellFormed(users: seq<User>, id: string)
    requires WellFormed(users)
    ensures WellFormed(ToggleStatus(users, id))
  {
    forall i | 0 <= i < |users|
      ensures ToggleStatus(users, id)[i].id != "" && ToggleStatus(users, id)[i].name != ""
    {
      ToggleStatusAt(users, id, i);
    }
  }

  lemma NewUserWellFormed(users: seq<User>, now: nat, name: string, email: string)
    requires WellFormed(users) && NewUser(now, name, email).Success?
    ensures WellFormed(users + [NewUser(now, name, email).value])
  {
    var u := NewUser(now, name, email).value;
    assert u.id == NatToString(now);
    assert u.name == Trim(name) != "";
    var grown := users + [u];
    forall j | 0 <= j < |grown|
      ensures grown[j].id != "" && grown[j].name != ""
    {
      if j == |users| {
        assert grown[j] == u;
      } else {
        assert grown[j] == users[j];
      }
    }
  }
}
