/** Client code relying on the handlers' contracts alone. */
module Scenario {
  import opened Schema
  import opened Queries
  import opened Api

  /** Adding a reaction and then removing it by the id it was given puts
      the thought back as it was. */
  method ReactionRoundTrip(s: Store, thoughtId: Id, body: string, username: string)
    requires s.Valid()
    modifies s
    ensures s.Valid() && s.users == old(s.users)
    ensures s.thoughts == old(s.thoughts)
  {
    ghost var before := s.thoughts;
    var newId := s.nextId;
    var added := s.AddReaction(thoughtId, body, username);
    if added.Ok? {
      var i := ThoughtIndex(before, thoughtId).value;
      assert s.thoughts[i] == added.value;
      assert ThoughtIndex(s.thoughts, thoughtId) == Some(i);
      assert ReactionIndex(added.value.reactions, newId).Some? by {
        assert added.value.reactions[|added.value.reactions| - 1].id == newId;
      }
      var removed := s.RemoveReaction(thoughtId, newId);
      assert s.thoughts == before[i := before[i]];
    }
  }

  /** Linking a user to someone not yet in the friend list and unlinking
      them again leaves every user as before. */
  method FriendRoundTrip(s: Store, userId: Id, friendId: Id)
    requires s.Valid()
    requires forall k :: 0 <= k < |s.users| && s.users[k].id == userId ==> friendId !in s.users[k].friends
    modifies s
    ensures s.Valid() && s.thoughts == old(s.thoughts)
    ensures s.users == old(s.users)
  {
    ghost var before := s.users;
    var added := s.AddFriend(userId, friendId);
    if added.Ok? {
      var i := UserIndex(before, userId).value;
      var f := UserIndex(before, friendId).value;
      ghost var u := before[i];
      ghost var linked := u.(friends := u.friends + [friendId]);
      assert s.users == before[i := linked];
      assert s.users[f].id == friendId;
      assert UserIndex(s.users, userId) == Some(i) && UserIndex(s.users, friendId).Some?;
      PullUndoesPush(u.friends, friendId);
      assert linked.(friends := Pull(linked.friends, friendId)) == u;
      var removed := s.RemoveFriend(userId, friendId);
      assert s.users == before[i := u];
    }
  }

  /** Posting a thought and deleting it again restores the thoughts, but
      the author keeps the deleted id at the end of their list. */
  method DanglingThoughtId(s: Store, text: string, username: string)
    requires s.Valid()
    modifies s
    ensures s.Valid() && s.thoughts == old(s.thoughts) && |s.users| == |old(s.users)|
    ensures match old(UserIndexByName(s.users, Trim(username)))
      case None => s.users == old(s.users)
      case Some(k) =>
        ValidThought(Thought(old(s.nextId), text, username, [])) ==>
          && s.users[k].thoughts == old(s.users[k].thoughts) + [old(s.nextId)]
          && ThoughtIndex(s.thoughts, old(s.nextId)).None?
  {
    ghost var before := s.thoughts;
    assert ThoughtsIssuedBelow(before, s.nextId);
    var created := s.CreateThought(text, username);
    if created.Ok? {
      var n := |before|;
      assert s.thoughts == before + [created.value] && s.thoughts[n].id == created.value.id;
      forall j | 0 <= j < n ensures s.thoughts[j].id != created.value.id {
        assert ThoughtIssuedBelow(before[j], created.value.id);
      }
      assert ThoughtIndex(s.thoughts, created.value.id) == Some(n);
      var deleted := s.DeleteThought(created.value.id);
      assert s.thoughts == before;
    }
  }
}
