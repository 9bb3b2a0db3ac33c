/**
  Users as the document page sees them: the team's permission list, the map
  from user id to the user of the latest permission for that id, and the
  presence roster with the current user removed.
 */
module Users {
  import opened Common

  type Id = string

  /** The parts of a serialized user that the modelled rules read. */
  datatype User = User(id: Id, displayName: string)

  /** A team permission; only the user it grants is read here. */
  datatype Permission = Permission(user: User)

  /** A participant of the realtime session (an entry of `connectedUsers`). */
  datatype Participant = Participant(id: Id, name: string, color: string)

  /**
    `usersMap`: each permission's user keyed by the user's id, built by a
    left-to-right fold, so for a repeated id the LAST permission wins
    (see `UsersMapLastWins`).
   */
  function UsersMap(perms: seq<Permission>): (m: map<Id, User>)
    ensures m.Keys == set i | 0 <= i < |perms| :: perms[i].user.id
    ensures forall id :: id in m ==> m[id].id == id
  {
    if |perms| == 0 then map[]
    else
      var init := perms[..|perms| - 1];
      var last := perms[|perms| - 1];
      var m0 := UsersMap(init);
      var all := set i | 0 <= i < |perms| :: perms[i].user.id;
      var before := set i | 0 <= i < |init| :: init[i].user.id;
      assert all == before + {last.user.id} by {
        forall id | id in all ensures id in before + {last.user.id} {
          var i :| 0 <= i < |perms| && perms[i].user.id == id;
          if i < |init| {
            assert init[i] == perms[i];
          }
        }
        forall id | id in before ensures id in all {
          var i :| 0 <= i < |init| && init[i].user.id == id;
          assert perms[i] == init[i];
        }
      }
      m0[last.user.id := last.user]
  }

  /** For a repeated user id the map holds the user of the last permission. */
  lemma {:induction false} UsersMapLastWins(perms: seq<Permission>, i: int)
    requires 0 <= i < |perms| && IsLastFor(perms, i)
    ensures perms[i].user.id in UsersMap(perms)
    ensures UsersMap(perms)[perms[i].user.id] == perms[i].user
  {
    var init := perms[..|perms| - 1];
    if i < |perms| - 1 {
      assert init[i] == perms[i];
      assert IsLastFor(init, i) by {
        forall j | i < j < |init| ensures init[j].user.id != init[i].user.id {
          assert init[j] == perms[j];
        }
      }
      UsersMapLastWins(init, i);
    }
  }

  /** No later permission in `perms` is for the same user id as `perms[i]`. */
  predicate IsLastFor(perms: seq<Permission>, i: int)
    requires 0 <= i < |perms|
  {
    forall j :: i < j < |perms| ==> perms[j].user.id != perms[i].user.id
  }

  /**
    `usersMap.get(u.id) || u`: the permission user with the same id when there
    is one, otherwise `u` itself. A user object is always truthy, so `||` is
    a plain get-or-default here.
   */
  function Refresh(m: map<Id, User>, u: User): (r: User)
    ensures u.id in m ==> r == m[u.id]
    ensures u.id !in m ==> r == u
  {
    if u.id in m then m[u.id] else u
  }

  /** Refreshing keeps the user's id whenever the map is keyed by user id. */
  lemma RefreshKeepsId(perms: seq<Permission>, u: User)
    ensures Refresh(UsersMap(perms), u).id == u.id
  {
  }

  /** Refreshing an already refreshed user changes nothing. */
  lemma RefreshIdempotent(perms: seq<Permission>, u: User)
    ensures Refresh(UsersMap(perms), Refresh(UsersMap(perms), u)) == Refresh(UsersMap(perms), u)
  {
  }

  function NotUser(me: Id): Participant -> bool
  {
    (p: Participant) => p.id != me
  }

  /** `otherUsers`: the presence roster without the entries of the current user. */
  function OtherUsers(connected: seq<Participant>, me: Id): (r: seq<Participant>)
    ensures forall p :: p in r <==> p in connected && p.id != me
    ensures forall i :: 0 <= i < |r| ==> r[i].id != me
    ensures |r| <= |connected|
  {
    Filter(NotUser(me), connected)
  }

  /** `otherUsers` keeps the roster's order: it distributes over concatenation. */
  lemma OtherUsersKeepsOrder(a: seq<Participant>, b: seq<Participant>, me: Id)
    ensures OtherUsers(a + b, me) == OtherUsers(a, me) + OtherUsers(b, me)
  {
    FilterConcat(NotUser(me), a, b);
  }

  /** When the current user is not connected, nobody is removed. */
  lemma OtherUsersWithoutMe(connected: seq<Participant>, me: Id)
    requires forall i :: 0 <= i < |connected| ==> connected[i].id != me
    ensures OtherUsers(connected, me) == connected
  {
    FilterKeepsAll(NotUser(me), connected);
  }
}
