/**
 * src/auth.py: the login state of one browser session, kept in two keys of Streamlit's
 * `st.session_state`, and the operations that change it.
 */
module Auth {
  import opened Wrappers
  import Database

  /** One key of `st.session_state`: not yet assigned, or holding a value. */
  datatype Slot<T> = Unset | Set(value: T) {

    /** `st.session_state.get(key, default)`. */
    function GetOr(default: T): T {
      match this
      case Set(v) => v
      case Unset => default
    }
  }

  /** The two session keys the manager uses. */
  class SessionState {
    var authenticated: Slot<bool>
    var user: Slot<Option<Database.UserRow>>

    /** A new browser session, in which neither key has been assigned. */
    constructor ()
      ensures authenticated == Unset && user == Unset
    {
      authenticated := Unset;
      user := Unset;
    }

    /** The two keys agree: the session counts as logged in exactly when it holds a user. */
    ghost predicate Consistent()
      reads this
    {
      (authenticated == Set(true)) <==> (user.Set? && user.value.Some?)
    }
  }

  class AuthManager {
    const db: Database.DatabaseManager
    const session: SessionState

    /** `__init__`: assigns each key only where the session does not have it yet. */
    constructor (db: Database.DatabaseManager, session: SessionState)
      modifies session
      ensures this.db == db && this.session == session
      ensures session.authenticated == if old(session.authenticated) == Unset then Set(false) else old(session.authenticated)
      ensures session.user == if old(session.user) == Unset then Set(None) else old(session.user)
      ensures old(session.authenticated) == Unset && old(session.user) == Unset ==>
                !IsAuthenticated() && GetCurrentUser() == None && session.Consistent()
      ensures old(session.Consistent()) ==> session.Consistent()
    {
      this.db := db;
      this.session := session;
      if session.authenticated == Unset {
        session.authenticated := Set(false);
      }
      if session.user == Unset {
        session.user := Set(None);
      }
    }

    /** `is_authenticated`: the stored flag, False where the key is missing. */
    function IsAuthenticated(): (b: bool)
      reads session
      ensures b <==> session.authenticated == Set(true)
      ensures session.Consistent() ==> (b <==> GetCurrentUser().Some?)
    {
      session.authenticated.GetOr(false)
    }

    /** `get_current_user`: the stored user, None where the key is missing. */
    function GetCurrentUser(): (u: Option<Database.UserRow>)
      reads session
      ensures u.Some? ==> session.user == Set(u)
      ensures u.None? <==> session.user in {Unset, Set(None)}
    {
      session.user.GetOr(None)
    }

    /** `login`: the session holds exactly the row the store authenticated, or is logged out. */
    method Login(username: string, password: string) returns (ok: bool)
      requires db.Valid()
      modifies session
      ensures ok <==> db.AuthenticateUser(username, password).Some?
      ensures ok ==> session.authenticated == Set(true) && session.user == Set(db.AuthenticateUser(username, password))
      ensures !ok ==> session.authenticated == Set(false) && session.user == Set(None)
      ensures session.Consistent()
      ensures IsAuthenticated() == ok && GetCurrentUser() == db.AuthenticateUser(username, password)
    {
      var user := db.AuthenticateUser(username, password);
      if user.Some? {
        session.authenticated := Set(true);
        session.user := Set(user);
        return true;
      }
      session.authenticated := Set(false);
      session.user := Set(None);
      return false;
    }

    /** `logout`: whatever the state before, the session is logged out. */
    method Logout()
      modifies session
      ensures session.authenticated == Set(false) && session.user == Set(None)
      ensures session.Consistent() && !IsAuthenticated() && GetCurrentUser() == None
    {
      session.authenticated := Set(false);
      session.user := Set(None);
    }

    /** `register`: the store's `create_user`, with the session left alone. */
    method Register(username: string, password: string) returns (created: bool)
      requires db.Valid()
      modifies db
      ensures db.Valid()
      ensures created <==> username !in old(db.users)
      ensures created ==> db.lastUserId == old(db.lastUserId) + 1
      ensures created ==> db.users == old(db.users)[username := Database.UserRow(db.lastUserId, username, Database.HashValue(password))]
      ensures created ==> db.AuthenticateUser(username, password) == Some(Database.UserRow(db.lastUserId, username, Database.HashValue(password)))
      ensures !created ==> db.users == old(db.users) && db.lastUserId == old(db.lastUserId)
      ensures db.expenses == old(db.expenses) && db.lastExpenseId == old(db.lastExpenseId) && db.cache == old(db.cache)
      ensures unchanged(session)
    {
      created := db.CreateUser(username, password);
    }
  }
}
