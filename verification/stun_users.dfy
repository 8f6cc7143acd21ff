/** `IceInMemoryStunUserProvider`: ICE username fragments and their
    passwords. A connectivity check names its user `RFRAG:LFRAG` (section
    7.1.2.3 of RFC 5245); the password is looked up by the fragment before
    the first colon. */
module StunUsers {
  import opened Results

  type Users = map<string, string>

  /** `AddUser`: adds the user, or replaces the password of one already known. */
  function AddUser(users: Users, name: string, password: string): (r: Users)
    ensures name in r && r[name] == password
    ensures forall k :: k != name ==> (k in r <==> k in users)
    ensures forall k :: k != name && k in users ==> r[k] == users[k]
  {
    users[name := password]
  }

  /** `username.Split(':')[0]`: the text before the first colon, all of it
      when there is none. */
  function Fragment(s: string): (f: string)
    ensures ':' !in f && f <= s
    ensures |f| < |s| ==> s[|f|] == ':'
  {
    if |s| == 0 || s[0] == ':' then [] else [s[0]] + Fragment(s[1..])
  }

  /** The fragment is the only colon-free prefix that ends the string or is
      followed by a colon. */
  lemma {:induction false} FragmentUnique(s: string, f: string)
    requires ':' !in f && f <= s && (|f| < |s| ==> s[|f|] == ':')
    ensures Fragment(s) == f
  {
    if |f| > 0 {
      assert s[0] == f[0] && f[0] != ':';
      assert f[1..] <= s[1..];
      assert ':' !in f[1..] by {
        assert forall i :: 0 <= i < |f| - 1 ==> f[1..][i] == f[i + 1];
      }
      FragmentUnique(s[1..], f[1..]);
      assert f == [f[0]] + f[1..];
    } else if |s| > 0 {
      assert s[0] == ':';
    }
  }

  /** `GetPassword`: the password of the fragment, `null` (here `None`) for
      an unknown one. */
  function GetPassword(users: Users, username: string): (r: Option<string>)
    ensures r.Some? <==> Fragment(username) in users
  {
    var fragment := Fragment(username);
    if fragment in users then Some(users[fragment]) else None
  }

  /** A check naming `fragment:anything` finds the password added for
      `fragment`, and so does the bare fragment. */
  lemma CheckFindsPassword(users: Users, fragment: string, password: string, peer: string)
    requires ':' !in fragment
    ensures GetPassword(AddUser(users, fragment, password), fragment + ":" + peer) == Some(password)
    ensures GetPassword(AddUser(users, fragment, password), fragment) == Some(password)
  {
    var s := fragment + ":" + peer;
    assert fragment <= s && s[|fragment|] == ':';
    FragmentUnique(s, fragment);
    FragmentUnique(fragment, fragment);
  }

  /** A user added under a name with a colon in it is never found: lookups
      see the store as if that addition had not happened. */
  lemma ColonNamesUnreachable(users: Users, name: string, password: string, username: string)
    requires ':' in name
    ensures GetPassword(AddUser(users, name, password), username) == GetPassword(users, username)
  {
    assert Fragment(username) != name;
  }
}
