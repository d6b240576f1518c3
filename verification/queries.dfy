/** The document-store queries the route handlers issue, as functions on the
    stored sequences: lookup by id, lookup of a user by name, the search
    through a thought's reactions, and the three removals (delete every
    thought by an author, filter reactions by id, pull an id from a list). */
module Queries {
  import opened Schema

  // ---- lookups: the first position holding the wanted key ----

  /** `User.findById`. */
  function UserIndex(us: seq<User>, id: Id): (r: Option<nat>)
    ensures r.Some? ==> r.value < |us| && us[r.value].id == id
    ensures r.Some? ==> forall k :: 0 <= k < r.value ==> us[k].id != id
    ensures r.None? ==> forall k :: 0 <= k < |us| ==> us[k].id != id
  {
    if us == [] then None
    else if us[0].id == id then Some(0)
    else match UserIndex(us[1..], id)
      case None => None
      case Some(k) => Some(k + 1)
  }

  /** `User.findOne({ username })`, the lookup behind linking a new thought. */
  function UserIndexByName(us: seq<User>, name: string): (r: Option<nat>)
    ensures r.Some? ==> r.value < |us| && us[r.value].username == name
    ensures r.Some? ==> forall k :: 0 <= k < r.value ==> us[k].username != name
    ensures r.None? ==> forall k :: 0 <= k < |us| ==> us[k].username != name
  {
    if us == [] then None
    else if us[0].username == name then Some(0)
    else match UserIndexByName(us[1..], name)
      case None => None
      case Some(k) => Some(k + 1)
  }

  /** `Thought.findById`: the same first-match search as `UserIndex`, over
      the thought collection. */
  function ThoughtIndex(ts: seq<Thought>, id: Id): (r: Option<nat>)
    ensures r.Some? ==> r.value < |ts| && ts[r.value].id == id
    ensures r.Some? ==> forall k :: 0 <= k < r.value ==> ts[k].id != id
    ensures r.None? ==> forall k :: 0 <= k < |ts| ==> ts[k].id != id
  {
    if ts == [] then None
    else if ts[0].id == id then Some(0)
    else match ThoughtIndex(ts[1..], id)
      case None => None
      case Some(k) => Some(k + 1)
  }

  /** `thought.reactions.find(reaction => reaction._id === reactionId)`:
      the same first-match search as `UserIndex`, over one thought's
      reactions. */
  function ReactionIndex(rs: seq<Reaction>, id: Id): (r: Option<nat>)
    ensures r.Some? ==> r.value < |rs| && rs[r.value].id == id
    ensures r.Some? ==> forall k :: 0 <= k < r.value ==> rs[k].id != id
    ensures r.None? ==> forall k :: 0 <= k < |rs| ==> rs[k].id != id
  {
    if rs == [] then None
    else if rs[0].id == id then Some(0)
    else match ReactionIndex(rs[1..], id)
      case None => None
      case Some(k) => Some(k + 1)
  }

  // ---- removals ----

  /** `Thought.deleteMany({ username: name })`: keeps exactly the thoughts
      whose author field differs from `name`. */
  function WithoutAuthor(ts: seq<Thought>, name: string): (r: seq<Thought>)
    ensures |r| <= |ts|
  {
    if ts == [] then []
    else if ts[0].username == name then WithoutAuthor(ts[1..], name)
    else [ts[0]] + WithoutAuthor(ts[1..], name)
  }

  /** `reactions.filter(reaction => reaction._id !== id)`. */
  function WithoutReaction(rs: seq<Reaction>, id: Id): (r: seq<Reaction>)
    ensures |r| <= |rs|
  {
    if rs == [] then []
    else if rs[0].id == id then WithoutReaction(rs[1..], id)
    else [rs[0]] + WithoutReaction(rs[1..], id)
  }

  /** `ids.pull(x)`: every occurrence of `x` goes. */
  function Pull(ids: seq<Id>, x: Id): (r: seq<Id>)
    ensures |r| <= |ids|
  {
    if ids == [] then []
    else if ids[0] == x then Pull(ids[1..], x)
    else [ids[0]] + Pull(ids[1..], x)
  }

  // ---- what each removal keeps ----

  /** deleteMany keeps exactly the thoughts by other authors. */
  lemma {:induction false} WithoutAuthorMembers(ts: seq<Thought>, name: string)
    ensures forall t :: t in WithoutAuthor(ts, name) <==> t in ts && t.username != name
  {
    if ts != [] {
      WithoutAuthorMembers(ts[1..], name);
      assert ts == [ts[0]] + ts[1..];
    }
  }

  /** The filter keeps exactly the reactions with another id. */
  lemma {:induction false} WithoutReactionMembers(rs: seq<Reaction>, id: Id)
    ensures forall x :: x in WithoutReaction(rs, id) <==> x in rs && x.id != id
  {
    if rs != [] {
      WithoutReactionMembers(rs[1..], id);
      assert rs == [rs[0]] + rs[1..];
    }
  }

  /** Pull keeps exactly the ids other than `x`. */
  lemma {:induction false} PullMembers(ids: seq<Id>, x: Id)
    ensures forall y :: y in Pull(ids, x) <==> y in ids && y != x
  {
    if ids != [] {
      PullMembers(ids[1..], x);
      assert ids == [ids[0]] + ids[1..];
    }
  }

  // ---- the removals keep the survivors in their original order ----

  lemma {:induction false} WithoutAuthorAppend(a: seq<Thought>, b: seq<Thought>, name: string)
    ensures WithoutAuthor(a + b, name) == WithoutAuthor(a, name) + WithoutAuthor(b, name)
  {
    if a != [] {
      assert (a + b)[1..] == a[1..] + b;
      WithoutAuthorAppend(a[1..], b, name);
    } else {
      assert a + b == b;
    }
  }

  lemma {:induction false} WithoutReactionAppend(a: seq<Reaction>, b: seq<Reaction>, id: Id)
    ensures WithoutReaction(a + b, id) == WithoutReaction(a, id) + WithoutReaction(b, id)
  {
    if a != [] {
      assert (a + b)[1..] == a[1..] + b;
      WithoutReactionAppend(a[1..], b, id);
    } else {
      assert a + b == b;
    }
  }

  lemma {:induction false} PullAppend(a: seq<Id>, b: seq<Id>, x: Id)
    ensures Pull(a + b, x) == Pull(a, x) + Pull(b, x)
  {
    if a != [] {
      assert (a + b)[1..] == a[1..] + b;
      PullAppend(a[1..], b, x);
    } else {
      assert a + b == b;
    }
  }

  // ---- what the removals leave behind ----

  /** deleteMany is a no-op when nobody of that name wrote anything. */
  lemma {:induction false} WithoutAuthorNoMatch(ts: seq<Thought>, name: string)
    requires forall k :: 0 <= k < |ts| ==> ts[k].username != name
    ensures WithoutAuthor(ts, name) == ts
  {
    if ts != [] {
      WithoutAuthorNoMatch(ts[1..], name);
    }
  }

  lemma {:induction false} WithoutReactionNoMatch(rs: seq<Reaction>, id: Id)
    requires forall k :: 0 <= k < |rs| ==> rs[k].id != id
    ensures WithoutReaction(rs, id) == rs
  {
    if rs != [] {
      WithoutReactionNoMatch(rs[1..], id);
    }
  }

  /** Filtering by the id of a reaction whose id occurs nowhere else
      removes just that reaction. */
  lemma {:induction false} WithoutReactionAround(pre: seq<Reaction>, x: Reaction, post: seq<Reaction>)
    requires forall k :: 0 <= k < |pre| ==> pre[k].id != x.id
    requires forall k :: 0 <= k < |post| ==> post[k].id != x.id
    ensures WithoutReaction(pre + [x] + post, x.id) == pre + post
  {
    var whole := pre + [x] + post;
    if pre == [] {
      assert whole[1..] == post;
      WithoutReactionNoMatch(post, x.id);
    } else {
      assert whole[1..] == pre[1..] + [x] + post;
      WithoutReactionAround(pre[1..], x, post);
      assert pre + post == [pre[0]] + (pre[1..] + post);
    }
  }

  /** When reaction ids are distinct, filtering by the id at position `i`
      removes exactly that one reaction: the count drops by one. */
  lemma WithoutReactionDropsOne(rs: seq<Reaction>, i: nat)
    requires i < |rs|
    requires forall j, k :: 0 <= j < k < |rs| ==> rs[j].id != rs[k].id
    ensures WithoutReaction(rs, rs[i].id) == rs[..i] + rs[i + 1..]
    ensures |WithoutReaction(rs, rs[i].id)| == |rs| - 1
  {
    var pre, x, post := rs[..i], rs[i], rs[i + 1..];
    forall k | 0 <= k < |pre| ensures pre[k].id != x.id {
      assert pre[k] == rs[k];
    }
    forall k | 0 <= k < |post| ensures post[k].id != x.id {
      assert post[k] == rs[i + 1 + k];
    }
    assert rs == pre + [x] + post;
    WithoutReactionAround(pre, x, post);
  }

  /** Removing a freshly appended reaction by its id gives back the
      reactions the thought had before. */
  lemma WithoutReactionUndoesAppend(rs: seq<Reaction>, x: Reaction)
    requires forall k :: 0 <= k < |rs| ==> rs[k].id != x.id
    ensures WithoutReaction(rs + [x], x.id) == rs
  {
    WithoutReactionAppend(rs, [x], x.id);
    WithoutReactionNoMatch(rs, x.id);
  }

  /** Pulling `x` removes all its occurrences and keeps every other id with
      its multiplicity. */
  lemma {:induction false} PullMultiset(ids: seq<Id>, x: Id)
    ensures multiset(Pull(ids, x)) == multiset(ids)[x := 0]
    ensures |Pull(ids, x)| == |ids| - multiset(ids)[x]
  {
    if ids != [] {
      PullMultiset(ids[1..], x);
      assert ids == [ids[0]] + ids[1..];
    }
  }

  /** Pushing a friend id that was not in the list and then pulling it gives
      back the list as it was. */
  lemma PullUndoesPush(ids: seq<Id>, x: Id)
    requires x !in ids
    ensures Pull(ids + [x], x) == ids
  {
    PullAppend(ids, [x], x);
    PullNoMatch(ids, x);
  }

  lemma {:induction false} PullNoMatch(ids: seq<Id>, x: Id)
    requires x !in ids
    ensures Pull(ids, x) == ids
  {
    if ids != [] {
      PullNoMatch(ids[1..], x);
    }
  }
}
