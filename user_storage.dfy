/**
 * Daily-reading subscriptions (telegram/user_storage.py): the list of
 * subscribed chat ids, saved without duplicates.
 */
module UserStorage {
  type UserId = int

  predicate NoDuplicates(s: seq<UserId>) {
    forall i, j :: 0 <= i < j < |s| ==> s[i] != s[j]
  }

  /** The ids of `s`, each once, in order of first appearance. */
  function Dedup(s: seq<UserId>): (r: seq<UserId>)
    ensures NoDuplicates(r)
    ensures forall x :: x in r <==> x in s
    ensures |r| <= |s|
  {
    if s == [] then []
    else
      var init := Dedup(s[..|s| - 1]);
      var last := s[|s| - 1];
      assert forall x :: x in s <==> x in s[..|s| - 1] || x == last by {
        assert s == s[..|s| - 1] + [last];
      }
      if last in init then init else init + [last]
  }

  /** A list without duplicates is saved as it is. */
  lemma {:induction false} DedupOfDistinct(s: seq<UserId>)
    requires NoDuplicates(s)
    ensures Dedup(s) == s
    decreases |s|
  {
    if s != [] {
      var init := s[..|s| - 1];
      assert NoDuplicates(init);
      DedupOfDistinct(init);
      assert s[|s| - 1] !in init;
      assert s == init + [s[|s| - 1]];
    }
  }

  /** Saving twice is saving once. */
  lemma DedupIsIdempotent(s: seq<UserId>)
    ensures Dedup(Dedup(s)) == Dedup(s)
  {
    DedupOfDistinct(Dedup(s));
  }

  /** The contents of `subscribed_users.json`. */
  class Subscriptions {
    var users: seq<UserId>

    ghost predicate Valid()
      reads this
    {
      NoDuplicates(users)
    }

    constructor ()
      ensures Valid()
      ensures users == []
    {
      users := [];
    }

    /**
     * `save_subscribed_users`: stores each id of `ids` once. The source goes
     * through a set, whose order is unspecified; first appearances are kept.
     */
    method SaveSubscribedUsers(ids: seq<UserId>)
      modifies this
      ensures Valid()
      ensures users == Dedup(ids)
    {
      var saved: seq<UserId> := [];
      var i := 0;
      while i < |ids|
        invariant 0 <= i <= |ids|
        invariant saved == Dedup(ids[..i])
      {
        assert ids[..i + 1][..i] == ids[..i];
        if ids[i] !in saved {
          saved := saved + [ids[i]];
        }
        i := i + 1;
      }
      assert ids[..i] == ids;
      users := saved;
    }

    /** `add_user`: appends a new id; an id already subscribed changes nothing. Both report success. */
    method AddUser(user: UserId) returns (ok: bool)
      requires Valid()
      modifies this
      ensures Valid()
      ensures ok
      ensures user in old(users) ==> users == old(users)
      ensures user !in old(users) ==> users == old(users) + [user]
      ensures IsSubscribed(user)
    {
      if user !in users {
        var updated := users + [user];
        DedupOfDistinct(updated);
        SaveSubscribedUsers(updated);
      }
      return true;
    }

    /**
     * `remove_user`: deletes a subscribed id and returns true; for an id that
     * is not subscribed returns false and changes nothing.
     */
    method RemoveUser(user: UserId) returns (removed: bool)
      requires Valid()
      modifies this
      ensures Valid()
      ensures removed <==> user in old(users)
      ensures !removed ==> users == old(users)
      ensures removed ==> exists k :: 0 <= k < |old(users)| && old(users)[k] == user && users == old(users)[..k] + old(users)[k + 1..]
      ensures !IsSubscribed(user)
      ensures forall v :: v != user ==> (IsSubscribed(v) <==> v in old(users))
    {
      if user !in users {
        return false;
      }
      var k := 0;
      while users[k] != user
        invariant 0 <= k < |users|
        invariant user in users[k..]
        decreases |users| - k
      {
        assert users[k..] == [users[k]] + users[k + 1..];
        k := k + 1;
      }
      var updated := users[..k] + users[k + 1..];
      ghost var before := users;
      assert forall v :: v in updated <==> v in before && v != user by {
        assert forall i :: 0 <= i < |updated| ==> updated[i] == if i < k then before[i] else before[i + 1];
        forall v | v in before && v != user
          ensures v in updated
        {
          var i :| 0 <= i < |before| && before[i] == v;
          assert updated[if i < k then i else i - 1] == v;
        }
      }
      assert NoDuplicates(updated) by {
        assert forall i :: 0 <= i < |updated| ==> updated[i] == if i < k then before[i] else before[i + 1];
      }
      DedupOfDistinct(updated);
      SaveSubscribedUsers(updated);
      return true;
    }

    /** `is_subscribed`. */
    predicate IsSubscribed(user: UserId): (b: bool)
      reads this
      ensures b <==> exists i :: 0 <= i < |users| && users[i] == user
    {
      user in users
    }

    /** `get_all_subscribed_users`. */
    function GetAllSubscribedUsers(): (r: seq<UserId>)
      reads this
      requires Valid()
      ensures NoDuplicates(r)
      ensures forall u :: u in r <==> IsSubscribed(u)
    {
      users
    }
  }
}
