/** The user registry the authentication code queries. Its own implementation
    (models/user.py and models/base.py) is not part of this model: the table of
    loaded users is passed in, and password checking is a parameter. */
module Users {
  import opened Wrappers

  datatype User = User(id: string, email: string, password: string)

  /** `User.search` raises unless the user table has been loaded. */
  datatype UserTable = NotLoaded | Loaded(users: seq<User>)

  /** `User.search({'email': email})`: the loaded users with that e-mail, in table order. */
  function SearchByEmail(table: UserTable, email: string): (r: Option<seq<User>>)
    ensures r.None? <==> table.NotLoaded?
    ensures r.Some? ==> forall u :: u in r.value <==> u in table.users && u.email == email
  {
    match table
    case NotLoaded => None
    case Loaded(users) => Some(WithEmail(users, email))
  }

  function WithEmail(users: seq<User>, email: string): (r: seq<User>)
    ensures forall u :: u in r <==> u in users && u.email == email
  {
    if |users| == 0 then []
    else if users[0].email == email then [users[0]] + WithEmail(users[1..], email)
    else WithEmail(users[1..], email)
  }

  /** Filtering keeps table order: the matches of a table made of two parts
      are the first part's matches followed by the second part's. */
  lemma {:induction false} WithEmailKeepsOrder(a: seq<User>, b: seq<User>, email: string)
    ensures WithEmail(a + b, email) == WithEmail(a, email) + WithEmail(b, email)
    decreases |a|
  {
    if |a| == 0 {
      assert a + b == b;
    } else {
      assert (a + b)[0] == a[0];
      assert (a + b)[1..] == a[1..] + b;
      WithEmailKeepsOrder(a[1..], b, email);
    }
  }

  /** The position of the first user for whom `pwd` is a valid password: the
      loop over the search result stops at the first user whose password check
      succeeds. */
  function FirstValid(users: seq<User>, pwd: string, isValidPassword: (User, string) -> bool): (r: Option<nat>)
    ensures r.None? <==> forall i :: 0 <= i < |users| ==> !isValidPassword(users[i], pwd)
    ensures r.Some? ==> r.value < |users| && isValidPassword(users[r.value], pwd)
    ensures r.Some? ==> forall j :: 0 <= j < r.value ==> !isValidPassword(users[j], pwd)
  {
    if |users| == 0 then None
    else if isValidPassword(users[0], pwd) then Some(0)
    else
      match FirstValid(users[1..], pwd, isValidPassword)
      case None => None
      case Some(k) => Some(k + 1)
  }

  /** `User.get(user_id)`: the user with that id, `None` for a missing or `None` id. */
  function Get(users: seq<User>, id: Option<string>): (r: Option<User>)
    ensures r.Some? <==> id.Some? && exists i :: 0 <= i < |users| && users[i].id == id.value
    ensures r.Some? ==> r.value in users && r.value.id == id.value
  {
    if id.None? || |users| == 0 then None
    else if users[0].id == id.value then Some(users[0])
    else
      var r := Get(users[1..], id);
      assert forall i :: 1 <= i < |users| ==> users[i] == users[1..][i - 1];
      r
  }
}
