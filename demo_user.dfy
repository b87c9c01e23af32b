/** The script that makes sure a demo account exists: it reads the users
    file (a missing file is an empty list), looks for the demo email, and
    appends the demo user only when there is none. */
module DemoUser {
  import opened Optional
  import opened Catalogue

  const DemoEmail := "demo@local"

  /** The account the script creates, with the id it draws. */
  function DemoAccount(id: Id): (u: User)
    ensures u.email == DemoEmail
  {
    User(id, "Demo User", DemoEmail, "password")
  }

  /** `users.find(u => u.email === email)`, as an index. */
  function FindByEmail(users: seq<User>, email: string): (r: Option<nat>)
    ensures r.None? <==> !EmailTaken(users, email)
    ensures r.Some? ==> r.value < |users| && users[r.value].email == email
    ensures r.Some? ==> forall j | 0 <= j < r.value :: users[j].email != email
    decreases |users|
  {
    if users == [] then None
    else if users[0].email == email then Some(0)
    else
      match FindByEmail(users[1..], email)
      case None =>
        assert forall i | 1 <= i < |users| :: users[i] == users[1..][i - 1];
        None
      case Some(k) => Some(k + 1)
  }

  /** The user the script returns and the list it leaves, from the list it
      read and the id it would give a new account. */
  function Ensured(users: seq<User>, id: Id): (r: (User, seq<User>))
    ensures r.0.email == DemoEmail && r.0 in r.1
    ensures |r.1| >= |users| && r.1[..|users|] == users
    ensures EmailTaken(users, DemoEmail) ==>
      r.1 == users && r.0 == users[FindByEmail(users, DemoEmail).value]
    ensures !EmailTaken(users, DemoEmail) ==>
      r.1 == users + [r.0] && r.0 == User(id, "Demo User", DemoEmail, "password")
  {
    match FindByEmail(users, DemoEmail)
    case Some(i) => (users[i], users)
    case None =>
      var u := DemoAccount(id);
      assert (users + [u])[..|users|] == users;
      (u, users + [u])
  }

  /** Running the script again, whatever id it draws, finds the account the
      first run made or found, and changes nothing. */
  lemma EnsureIdempotent(users: seq<User>, id1: Id, id2: Id)
    ensures Ensured(Ensured(users, id1).1, id2) == Ensured(users, id1)
  {
    var (u1, us1) := Ensured(users, id1);
    if !EmailTaken(users, DemoEmail) {
      assert forall j | 0 <= j < |users| :: us1[j] == users[j];
      assert FindByEmail(us1, DemoEmail) == Some(|users|);
    }
  }

  /** The script never introduces a second account with the same email. */
  lemma EnsureKeepsEmailsUnique(users: seq<User>, id: Id)
    requires UniqueEmails(users)
    ensures UniqueEmails(Ensured(users, id).1)
  {
    if !EmailTaken(users, DemoEmail) {
      SignupThenLogin(users, DemoAccount(id));
    }
  }

  /** The users file: `None` when it does not exist. */
  class UserFile {
    var stored: Option<seq<User>>

    constructor (initial: Option<seq<User>>)
      ensures stored == initial
    {
      stored := initial;
    }

    /** `readUsers()`: a missing file reads as no users. */
    function Users(): (r: seq<User>)
      reads this
      ensures stored.None? ==> r == []
      ensures stored.Some? ==> r == stored.value
    {
      match stored
      case None => []
      case Some(us) => us
    }

    /** `ensureDemoUser()`: find the demo account, or append and write it. */
    method EnsureDemoUser(freshId: Id) returns (user: User)
      modifies this
      ensures (user, Users()) == Ensured(old(Users()), freshId)
      ensures EmailTaken(old(Users()), DemoEmail) ==> stored == old(stored)
    {
      var users := Users();
      match FindByEmail(users, DemoEmail)
      case Some(i) =>
        user := users[i];
      case None =>
        user := DemoAccount(freshId);
        users := users + [user];
        stored := Some(users);
    }
  }
}
