/**
 * The login / developer-mode state: a user name and a flag, with the
 * signals each change emits recorded, in order, in the ghost `events`.
 */
module Auth {
  datatype AuthEvent = UserChanged | DeveloperModeChanged(isDev: bool)

  class AuthManager {
    var username: string
    var isDeveloper: bool
    ghost var events: seq<AuthEvent>

    /** Nobody is logged in and developer mode is off. */
    constructor ()
      ensures username == "" && !isDeveloper && events == []
    {
      username := "";
      isDeveloper := false;
      events := [];
    }

    /** Logs in under `name`; an empty name is refused without any effect. */
    method Login(name: string) returns (ok: bool)
      modifies this`username, this`events
      ensures ok <==> name != ""
      ensures ok ==> username == name && events == old(events) + [UserChanged]
      ensures !ok ==> username == old(username) && events == old(events)
    {
      if name == "" {
        return false;
      }
      username := name;
      events := events + [UserChanged];
      return true;
    }

    /** Clears the user and developer mode, signalling both even when already clear. */
    method Logout()
      modifies this
      ensures username == "" && !isDeveloper
      ensures events == old(events) + [UserChanged, DeveloperModeChanged(false)]
    {
      username := "";
      isDeveloper := false;
      events := events + [UserChanged];
      events := events + [DeveloperModeChanged(false)];
    }

    method IsDeveloper() returns (r: bool)
      ensures r == isDeveloper
    {
      r := isDeveloper;
    }

    /** Sets the flag; signals only when its value actually changes. */
    method SetDeveloperMode(enabled: bool)
      modifies this`isDeveloper, this`events
      ensures isDeveloper == enabled
      ensures events == old(events) + (if old(isDeveloper) != enabled then [DeveloperModeChanged(enabled)] else [])
    {
      if isDeveloper != enabled {
        isDeveloper := enabled;
        events := events + [DeveloperModeChanged(enabled)];
      }
    }

    method GetUsername() returns (r: string)
      ensures r == username
    {
      r := username;
    }
  }

  /** Setting the same mode twice has the effect of setting it once. */
  method SetDeveloperModeTwice(auth: AuthManager, enabled: bool)
    modifies auth
    ensures auth.isDeveloper == enabled && auth.username == old(auth.username)
    ensures auth.events == old(auth.events)
      + (if old(auth.isDeveloper) != enabled then [DeveloperModeChanged(enabled)] else [])
  {
    auth.SetDeveloperMode(enabled);
    auth.SetDeveloperMode(enabled);
  }
}
