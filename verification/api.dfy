/** The route handlers of server.js as methods of one in-memory store. Each
    handler runs as one atomic step and reports a typed reply instead of an
    HTTP status. The counter `nextId` stands for the store's object-id
    generator: every user, thought and reaction gets the next value. */
module Api {
  import opened Schema
  import opened Queries

  /** What a handler reports: the body of a 2xx answer, a 404, or a write
      the store refused (a schema or duplicate-key failure). */
  datatype Reply<T> = Ok(value: T) | NotFound | Invalid

  /** The fields of a PUT body this model carries; `None` keeps the stored value. */
  datatype UserPatch = UserPatch(username: Option<string>, email: Option<string>)

  datatype ThoughtPatch = ThoughtPatch(thoughtText: Option<string>, username: Option<string>)

  /** Some user other than the one at position `skip` already holds `u`'s
      username or email, so the unique indexes refuse the write. */
  predicate Clashes(us: seq<User>, skip: nat, u: User)
  {
    exists k :: 0 <= k < |us| && k != skip && (us[k].username == u.username || us[k].email == u.email)
  }

  /** `findByIdAndUpdate` with a body: the given fields replace the stored
      ones. The username setter (trim) runs; no validator does. An absent
      field keeps its stored value, and a given username is stored without
      white space at either end. */
  function PatchUser(u: User, p: UserPatch): (r: User)
    ensures r.id == u.id && r.thoughts == u.thoughts && r.friends == u.friends
    ensures p.username.None? ==> r.username == u.username
    ensures p.email.None? ==> r.email == u.email
    ensures p.username.Some? ==> TrimmedEnds(r.username)
    ensures p.username.Some? ==>
      exists a, b :: SliceBetweenSpaces(p.username.value, a, b) && r.username == p.username.value[a..b]
    ensures p.email.Some? ==> r.email == p.email.value
    ensures p == UserPatch(None, None) ==> r == u
  {
    if p.username.Some? then
      TrimIsSlice(p.username.value);
      u.(username := Trim(p.username.value), email := if p.email.Some? then p.email.value else u.email)
    else
      u.(email := if p.email.Some? then p.email.value else u.email)
  }

  /** Sending the same user update twice stores what sending it once does. */
  lemma PatchUserIdempotent(u: User, p: UserPatch)
    ensures PatchUser(PatchUser(u, p), p) == PatchUser(u, p)
  {
    if p.username.Some? {
      TrimIdempotent(p.username.value);
    }
  }

  /** `findByIdAndUpdate` on a thought: the given fields replace the stored
      ones, an absent field keeps its value, and the reactions stay. */
  function PatchThought(t: Thought, p: ThoughtPatch): (r: Thought)
    ensures r.id == t.id && r.reactions == t.reactions
    ensures p.thoughtText.None? ==> r.thoughtText == t.thoughtText
    ensures p.username.None? ==> r.username == t.username
    ensures p.thoughtText.Some? ==> r.thoughtText == p.thoughtText.value
    ensures p.username.Some? ==> r.username == p.username.value
    ensures p == ThoughtPatch(None, None) ==> r == t
  {
    t.(thoughtText := if p.thoughtText.Some? then p.thoughtText.value else t.thoughtText,
       username := if p.username.Some? then p.username.value else t.username)
  }

  /** Sending the same thought update twice stores what sending it once does. */
  lemma PatchThoughtIdempotent(t: Thought, p: ThoughtPatch)
    ensures PatchThought(PatchThought(t, p), p) == PatchThought(t, p)
  {
  }

  // ---- the store invariant ----

  /** Ids are keys, and usernames and emails are under unique indexes. */
  ghost predicate UsersDistinct(us: seq<User>)
  {
    forall i, j :: 0 <= i < j < |us| ==>
      us[i].id != us[j].id && us[i].username != us[j].username && us[i].email != us[j].email
  }

  ghost predicate ThoughtsDistinct(ts: seq<Thought>)
  {
    forall i, j :: 0 <= i < j < |ts| ==> ts[i].id != ts[j].id
  }

  ghost predicate ReactionsDistinct(rs: seq<Reaction>)
  {
    forall i, j :: 0 <= i < j < |rs| ==> rs[i].id != rs[j].id
  }

  /** Every id a user holds or refers to was issued before `n`, so a dangling
      reference never comes to name a later document. */
  ghost predicate UserIssuedBelow(u: User, n: Id)
  {
    u.id < n && (forall x :: x in u.thoughts ==> x < n) && (forall x :: x in u.friends ==> x < n)
  }

  /** A thought's id and its reactions' ids were issued before `n`, and the
      reactions' ids are distinct. */
  ghost predicate ThoughtIssuedBelow(t: Thought, n: Id)
  {
    t.id < n && ReactionsDistinct(t.reactions) && forall x :: x in t.reactions ==> x.id < n
  }

  ghost predicate UsersIssuedBelow(us: seq<User>, n: Id)
  {
    forall k :: 0 <= k < |us| ==> UserIssuedBelow(us[k], n)
  }

  ghost predicate ThoughtsIssuedBelow(ts: seq<Thought>, n: Id)
  {
    forall k :: 0 <= k < |ts| ==> ThoughtIssuedBelow(ts[k], n)
  }

  lemma IssuedBelowGrows(us: seq<User>, ts: seq<Thought>, n: Id, m: Id)
    requires n <= m && UsersIssuedBelow(us, n) && ThoughtsIssuedBelow(ts, n)
    ensures UsersIssuedBelow(us, m) && ThoughtsIssuedBelow(ts, m)
  {
    forall k | 0 <= k < |us| ensures UserIssuedBelow(us[k], m) {
      assert UserIssuedBelow(us[k], n);
    }
    forall k | 0 <= k < |ts| ensures ThoughtIssuedBelow(ts[k], m) {
      assert ThoughtIssuedBelow(ts[k], n);
    }
  }

  /** A new user whose name and email clash with nobody, under a fresh id,
      keeps the users distinct. */
  lemma AppendKeepsUsersDistinct(us: seq<User>, u: User, n: Id)
    requires UsersDistinct(us) && UsersIssuedBelow(us, n) && u.id == n
    requires !Clashes(us, |us|, u)
    ensures UsersDistinct(us + [u])
  {
    var r := us + [u];
    forall a, b | 0 <= a < b < |r|
      ensures r[a].id != r[b].id && r[a].username != r[b].username && r[a].email != r[b].email
    {
      if b == |us| {
        assert r[a] == us[a] && UserIssuedBelow(us[a], n);
      }
    }
  }

  /** Replacing one user by one with the same id whose name and email clash
      with no other user keeps the users distinct. */
  lemma ReplaceKeepsUsersDistinct(us: seq<User>, i: nat, u: User)
    requires i < |us| && UsersDistinct(us) && u.id == us[i].id
    requires !Clashes(us, i, u)
    ensures UsersDistinct(us[i := u])
  {
  }

  lemma RemoveAtKeepsUsersDistinct(us: seq<User>, i: nat)
    requires i < |us| && UsersDistinct(us)
    ensures UsersDistinct(us[..i] + us[i + 1..])
  {
    var r := us[..i] + us[i + 1..];
    forall a, b | 0 <= a < b < |r|
      ensures r[a].id != r[b].id && r[a].username != r[b].username && r[a].email != r[b].email
    {
      var a' := if a < i then a else a + 1;
      var b' := if b < i then b else b + 1;
      assert r[a] == us[a'] && r[b] == us[b'];
    }
  }

  lemma RemoveAtKeepsThoughtsDistinct(ts: seq<Thought>, i: nat)
    requires i < |ts| && ThoughtsDistinct(ts)
    ensures ThoughtsDistinct(ts[..i] + ts[i + 1..])
  {
    var r := ts[..i] + ts[i + 1..];
    forall a, b | 0 <= a < b < |r| ensures r[a].id != r[b].id {
      var a' := if a < i then a else a + 1;
      var b' := if b < i then b else b + 1;
      assert r[a] == ts[a'] && r[b] == ts[b'];
    }
  }

  /** The thoughts deleteMany leaves behind still have distinct ids. */
  lemma {:induction false} WithoutAuthorKeepsDistinct(ts: seq<Thought>, name: string)
    requires ThoughtsDistinct(ts)
    ensures ThoughtsDistinct(WithoutAuthor(ts, name))
  {
    if ts != [] {
      assert ThoughtsDistinct(ts[1..]) by {
        forall a, b | 0 <= a < b < |ts[1..]| ensures ts[1..][a].id != ts[1..][b].id {
          assert ts[1..][a] == ts[a + 1] && ts[1..][b] == ts[b + 1];
        }
      }
      WithoutAuthorKeepsDistinct(ts[1..], name);
      if ts[0].username != name {
        var rest := WithoutAuthor(ts[1..], name);
        WithoutAuthorMembers(ts[1..], name);
        var r := [ts[0]] + rest;
        forall a, b | 0 <= a < b < |r| ensures r[a].id != r[b].id {
          if a == 0 {
            assert r[b] == rest[b - 1] && rest[b - 1] in ts[1..];
            var k :| 0 <= k < |ts[1..]| && ts[1..][k] == rest[b - 1];
            assert ts[k + 1] == rest[b - 1];
          } else {
            assert r[a] == rest[a - 1] && r[b] == rest[b - 1];
          }
        }
      }
    }
  }

  /** deleteMany keeps the bounds on the surviving thoughts. */
  lemma WithoutAuthorKeepsIssued(ts: seq<Thought>, name: string, n: Id)
    requires ThoughtsIssuedBelow(ts, n)
    ensures ThoughtsIssuedBelow(WithoutAuthor(ts, name), n)
  {
    var r := WithoutAuthor(ts, name);
    WithoutAuthorMembers(ts, name);
    forall k | 0 <= k < |r| ensures ThoughtIssuedBelow(r[k], n) {
      assert r[k] in ts;
      var j :| 0 <= j < |ts| && ts[j] == r[k];
    }
  }

  lemma RemoveAtKeepsIssued(us: seq<User>, ts: seq<Thought>, i: nat, n: Id)
    requires UsersIssuedBelow(us, n) && ThoughtsIssuedBelow(ts, n)
    ensures i < |us| ==> UsersIssuedBelow(us[..i] + us[i + 1..], n)
    ensures i < |ts| ==> ThoughtsIssuedBelow(ts[..i] + ts[i + 1..], n)
  {
    if i < |us| {
      var r := us[..i] + us[i + 1..];
      forall k | 0 <= k < |r| ensures UserIssuedBelow(r[k], n) {
        assert r[k] == us[if k < i then k else k + 1];
      }
    }
    if i < |ts| {
      var r := ts[..i] + ts[i + 1..];
      forall k | 0 <= k < |r| ensures ThoughtIssuedBelow(r[k], n) {
        assert r[k] == ts[if k < i then k else k + 1];
      }
    }
  }

  /** A new thought under a fresh id keeps the thoughts distinct and below
      the advanced counter. */
  lemma AppendThoughtKeepsInvariant(ts: seq<Thought>, t: Thought, n: Id)
    requires ThoughtsDistinct(ts) && ThoughtsIssuedBelow(ts, n)
    requires t.id == n && t.reactions == []
    ensures ThoughtsDistinct(ts + [t]) && ThoughtsIssuedBelow(ts + [t], n + 1)
  {
    var r := ts + [t];
    forall a, b | 0 <= a < b < |r| ensures r[a].id != r[b].id {
      assert r[a] == ts[a] && ThoughtIssuedBelow(ts[a], n);
      if b < |ts| {
        assert r[b] == ts[b];
      }
    }
    forall a | 0 <= a < |r| ensures ThoughtIssuedBelow(r[a], n + 1) {
      if a < |ts| {
        assert r[a] == ts[a] && ThoughtIssuedBelow(ts[a], n);
      }
    }
  }

  /** Pushing an issued thought id onto one user's list keeps the users
      distinct and below the counter. */
  lemma LinkThoughtKeepsInvariant(us: seq<User>, k: nat, id: Id, n: Id)
    requires k < |us| && UsersDistinct(us) && UsersIssuedBelow(us, n) && id < n
    ensures UsersDistinct(us[k := us[k].(thoughts := us[k].thoughts + [id])])
    ensures UsersIssuedBelow(us[k := us[k].(thoughts := us[k].thoughts + [id])], n)
  {
    assert UserIssuedBelow(us[k], n);
  }

  /** A reaction under a fresh id, appended to a thought whose ids are all
      older, leaves the thought's ids distinct and below the next counter. */
  lemma AppendReactionIssued(t: Thought, x: Reaction, n: Id)
    requires ThoughtIssuedBelow(t, n) && x.id == n
    ensures forall k :: 0 <= k < |t.reactions| ==> t.reactions[k].id != x.id
    ensures ThoughtIssuedBelow(t.(reactions := t.reactions + [x]), n + 1)
  {
    forall k | 0 <= k < |t.reactions| ensures t.reactions[k].id != x.id {
      assert t.reactions[k] in t.reactions;
    }
    var rs := t.reactions + [x];
    forall a, b | 0 <= a < b < |rs| ensures rs[a].id != rs[b].id {
      if b == |t.reactions| {
        assert rs[a] == t.reactions[a];
      } else {
        assert rs[a] == t.reactions[a] && rs[b] == t.reactions[b];
      }
    }
  }

  /** Removing the reaction at position `k` keeps the thought's ids distinct
      and below the counter. */
  lemma RemoveReactionIssued(t: Thought, k: nat, n: Id)
    requires ThoughtIssuedBelow(t, n) && k < |t.reactions|
    ensures ThoughtIssuedBelow(t.(reactions := t.reactions[..k] + t.reactions[k + 1..]), n)
  {
    var rs := t.reactions;
    var rs' := rs[..k] + rs[k + 1..];
    forall a, b | 0 <= a < b < |rs'| ensures rs'[a].id != rs'[b].id {
      var a' := if a < k then a else a + 1;
      var b' := if b < k then b else b + 1;
      assert rs'[a] == rs[a'] && rs'[b] == rs[b'];
    }
    forall x | x in rs' ensures x.id < n {
      var j :| 0 <= j < |rs'| && rs'[j] == x;
      assert x == rs[if j < k then j else j + 1];
    }
  }

  class Store {
    var users: seq<User>
    var thoughts: seq<Thought>
    var nextId: Id

    ghost predicate Valid()
      reads this
    {
      UsersDistinct(users) && ThoughtsDistinct(thoughts) &&
      UsersIssuedBelow(users, nextId) && ThoughtsIssuedBelow(thoughts, nextId)
    }

    /** An empty database. */
    constructor ()
      ensures Valid() && users == [] && thoughts == [] && nextId == 0
    {
      users, thoughts, nextId := [], [], 0;
    }

    // ---- users ----

    /** GET /api/users: every stored user, references left as ids. */
    method ListUsers() returns (r: seq<User>)
      ensures |r| == |users| && forall k :: 0 <= k < |r| ==> r[k] == users[k]
    {
      r := users;
    }

    /** GET /api/users/:id. */
    method GetUser(id: Id) returns (r: Reply<User>)
      ensures !r.Invalid?
      ensures r.NotFound? <==> forall k :: 0 <= k < |users| ==> users[k].id != id
      ensures r.Ok? ==> r.value in users && r.value.id == id
    {
      var found := UserIndex(users, id);
      if found.None? {
        r := NotFound;
      } else {
        r := Ok(users[found.value]);
      }
    }

    /** POST /api/users: the username is trimmed, both fields are checked,
        the unique indexes refuse a taken username or email, and the new
        user starts with no thoughts and no friends. */
    method CreateUser(username: string, email: string) returns (r: Reply<User>)
      requires Valid()
      modifies this
      ensures Valid()
      ensures thoughts == old(thoughts)
      ensures var u := User(old(nextId), Trim(username), email, [], []);
        if ValidUser(u) && !Clashes(old(users), |old(users)|, u) then
          r == Ok(u) && users == old(users) + [u] && nextId == old(nextId) + 1
        else
          r == Invalid && users == old(users) && nextId == old(nextId)
    {
      var u := User(nextId, Trim(username), email, [], []);
      if !ValidUser(u) || Clashes(users, |users|, u) {
        return Invalid;
      }
      AppendKeepsUsersDistinct(users, u, nextId);
      IssuedBelowGrows(users, thoughts, nextId, nextId + 1);
      users := users + [u];
      nextId := nextId + 1;
      r := Ok(u);
    }

    /** PUT /api/users/:id: no validator runs, but the unique indexes still
        refuse a username or email another user holds. */
    method UpdateUser(id: Id, p: UserPatch) returns (r: Reply<User>)
      requires Valid()
      modifies this
      ensures Valid()
      ensures thoughts == old(thoughts) && nextId == old(nextId)
      ensures match old(UserIndex(users, id))
        case None => r == NotFound && users == old(users)
        case Some(i) =>
          var u := PatchUser(old(users)[i], p);
          if Clashes(old(users), i, u) then r == Invalid && users == old(users)
          else r == Ok(u) && users == old(users)[i := u]
    {
      var found := UserIndex(users, id);
      if found.None? {
        return NotFound;
      }
      var i := found.value;
      var u := PatchUser(users[i], p);
      if Clashes(users, i, u) {
        return Invalid;
      }
      ReplaceKeepsUsersDistinct(users, i, u);
      assert UserIssuedBelow(users[i], nextId);
      users := users[i := u];
      r := Ok(u);
    }

    /** DELETE /api/users/:id: removes the user, then every thought whose
        author field is that user's name, whether or not the user's
        `thoughts` list names it. Other users keep the deleted id in their
        friend lists. */
    method DeleteUser(id: Id) returns (r: Reply<()>)
      requires Valid()
      modifies this
      ensures Valid()
      ensures nextId == old(nextId)
      ensures match old(UserIndex(users, id))
        case None => r == NotFound && users == old(users) && thoughts == old(thoughts)
        case Some(i) =>
          && r == Ok(())
          && users == old(users)[..i] + old(users)[i + 1..]
          && thoughts == WithoutAuthor(old(thoughts), old(users)[i].username)
      ensures r.Ok? ==> UserIndex(users, id).None?
    {
      var found := UserIndex(users, id);
      if found.None? {
        return NotFound;
      }
      var i := found.value;
      var name := users[i].username;
      RemoveAtKeepsUsersDistinct(users, i);
      RemoveAtKeepsIssued(users, thoughts, i, nextId);
      WithoutAuthorKeepsDistinct(thoughts, name);
      WithoutAuthorKeepsIssued(thoughts, name, nextId);
      var rest := users[..i] + users[i + 1..];
      forall k | 0 <= k < |rest| ensures rest[k].id != id {
        if k < i {
          assert rest[k] == users[k];
        } else {
          assert rest[k] == users[k + 1];
        }
      }
      users := rest;
      thoughts := WithoutAuthor(thoughts, name);
      r := Ok(());
    }

    // ---- thoughts ----

    /** GET /api/thoughts. */
    method ListThoughts() returns (r: seq<Thought>)
      ensures |r| == |thoughts| && forall k :: 0 <= k < |r| ==> r[k] == thoughts[k]
    {
      r := thoughts;
    }

    /** GET /api/thoughts/:id. */
    method GetThought(id: Id) returns (r: Reply<Thought>)
      ensures !r.Invalid?
      ensures r.NotFound? <==> forall k :: 0 <= k < |thoughts| ==> thoughts[k].id != id
      ensures r.Ok? ==> r.value in thoughts && r.value.id == id
    {
      var found := ThoughtIndex(thoughts, id);
      if found.None? {
        r := NotFound;
      } else {
        r := Ok(thoughts[found.value]);
      }
    }

    /** POST /api/thoughts: a valid thought is saved with no reactions, then
        its id is pushed onto the thoughts of the user bearing that username,
        if there is one; without such a user the thought is still created.
        The thought keeps the username as given, while the user lookup casts
        it through the user schema, whose setter trims it. An invalid thought
        writes nothing. */
    method CreateThought(thoughtText: string, username: string) returns (r: Reply<Thought>)
      requires Valid()
      modifies this
      ensures Valid()
      ensures var t := Thought(old(nextId), thoughtText, username, []);
        if ValidThought(t) then
          && r == Ok(t)
          && thoughts == old(thoughts) + [t]
          && nextId == old(nextId) + 1
          && match old(UserIndexByName(users, Trim(username)))
            case None => users == old(users)
            case Some(k) => users == old(users)[k := old(users)[k].(thoughts := old(users)[k].thoughts + [t.id])]
        else
          r == Invalid && users == old(users) && thoughts == old(thoughts) && nextId == old(nextId)
    {
      var t := Thought(nextId, thoughtText, username, []);
      if !ValidThought(t) {
        return Invalid;
      }
      IssuedBelowGrows(users, thoughts, nextId, nextId + 1);
      AppendThoughtKeepsInvariant(thoughts, t, nextId);
      var author := UserIndexByName(users, Trim(username));
      if author.Some? {
        var k := author.value;
        LinkThoughtKeepsInvariant(users, k, t.id, nextId + 1);
        users := users[k := users[k].(thoughts := users[k].thoughts + [t.id])];
      }
      thoughts := thoughts + [t];
      nextId := nextId + 1;
      r := Ok(t);
    }

    /** PUT /api/thoughts/:id: the given fields replace the stored ones
        without validation; the author field may drift from any user name. */
    method UpdateThought(id: Id, p: ThoughtPatch) returns (r: Reply<Thought>)
      requires Valid()
      modifies this
      ensures Valid()
      ensures users == old(users) && nextId == old(nextId)
      ensures match old(ThoughtIndex(thoughts, id))
        case None => r == NotFound && thoughts == old(thoughts)
        case Some(i) =>
          var t := PatchThought(old(thoughts)[i], p);
          r == Ok(t) && thoughts == old(thoughts)[i := t]
    {
      var found := ThoughtIndex(thoughts, id);
      if found.None? {
        return NotFound;
      }
      var i := found.value;
      var t := PatchThought(thoughts[i], p);
      assert ThoughtIssuedBelow(thoughts[i], nextId);
      thoughts := thoughts[i := t];
      r := Ok(t);
    }

    /** DELETE /api/thoughts/:id: removes that thought only; ids in users'
        `thoughts` lists are left dangling. */
    method DeleteThought(id: Id) returns (r: Reply<()>)
      requires Valid()
      modifies this
      ensures Valid()
      ensures users == old(users) && nextId == old(nextId)
      ensures match old(ThoughtIndex(thoughts, id))
        case None => r == NotFound && thoughts == old(thoughts)
        case Some(i) => r == Ok(()) && thoughts == old(thoughts)[..i] + old(thoughts)[i + 1..]
      ensures r.Ok? ==> ThoughtIndex(thoughts, id).None?
    {
      var found := ThoughtIndex(thoughts, id);
      if found.None? {
        return NotFound;
      }
      var i := found.value;
      RemoveAtKeepsThoughtsDistinct(thoughts, i);
      RemoveAtKeepsIssued(users, thoughts, i, nextId);
      var rest := thoughts[..i] + thoughts[i + 1..];
      forall k | 0 <= k < |rest| ensures rest[k].id != id {
        if k < i {
          assert rest[k] == thoughts[k];
        } else {
          assert rest[k] == thoughts[k + 1];
        }
      }
      thoughts := rest;
      r := Ok(());
    }

    // ---- reactions ----

    /** POST /api/thoughts/:thoughtId/reactions: a reaction with a fresh id
        goes at the end of the thought's reactions and the thought is saved,
        which validates the whole thought; a failing save writes nothing.
        Filtering the new id out again gives back the old reactions. */
    method AddReaction(thoughtId: Id, reactionBody: string, username: string) returns (r: Reply<Thought>)
      requires Valid()
      modifies this
      ensures Valid()
      ensures users == old(users)
      ensures match old(ThoughtIndex(thoughts, thoughtId))
        case None => r == NotFound && thoughts == old(thoughts) && nextId == old(nextId)
        case Some(i) =>
          var t := old(thoughts)[i];
          var t' := t.(reactions := t.reactions + [Reaction(old(nextId), reactionBody, username)]);
          && ReactionCount(t') == ReactionCount(t) + 1
          && WithoutReaction(t'.reactions, old(nextId)) == t.reactions
          && if ValidThought(t') then
               r == Ok(t') && thoughts == old(thoughts)[i := t'] && nextId == old(nextId) + 1
             else
               r == Invalid && thoughts == old(thoughts) && nextId == old(nextId)
    {
      var found := ThoughtIndex(thoughts, thoughtId);
      if found.None? {
        return NotFound;
      }
      var i := found.value;
      var t := thoughts[i];
      var x := Reaction(nextId, reactionBody, username);
      var t' := t.(reactions := t.reactions + [x]);
      assert ThoughtIssuedBelow(t, nextId);
      AppendReactionIssued(t, x, nextId);
      WithoutReactionUndoesAppend(t.reactions, x);
      if !ValidThought(t') {
        return Invalid;
      }
      IssuedBelowGrows(users, thoughts, nextId, nextId + 1);
      thoughts := thoughts[i := t'];
      nextId := nextId + 1;
      r := Ok(t');
    }

    /** DELETE /api/thoughts/:thoughtId/reactions/:reactionId: the reaction
        must be found in that thought; then the reactions are filtered by
        id, which removes exactly that one, and the thought is saved. */
    method RemoveReaction(thoughtId: Id, reactionId: Id) returns (r: Reply<()>)
      requires Valid()
      modifies this
      ensures Valid()
      ensures users == old(users) && nextId == old(nextId)
      ensures match old(ThoughtIndex(thoughts, thoughtId))
        case None => r == NotFound && thoughts == old(thoughts)
        case Some(i) =>
          var t := old(thoughts)[i];
          match ReactionIndex(t.reactions, reactionId)
          case None => r == NotFound && thoughts == old(thoughts)
          case Some(k) =>
            var t' := t.(reactions := WithoutReaction(t.reactions, reactionId));
            && t'.reactions == t.reactions[..k] + t.reactions[k + 1..]
            && ReactionCount(t') == ReactionCount(t) - 1
            && if ValidThought(t') then r == Ok(()) && thoughts == old(thoughts)[i := t']
               else r == Invalid && thoughts == old(thoughts)
    {
      var found := ThoughtIndex(thoughts, thoughtId);
      if found.None? {
        return NotFound;
      }
      var i := found.value;
      var t := thoughts[i];
      var hit := ReactionIndex(t.reactions, reactionId);
      if hit.None? {
        return NotFound;
      }
      var k := hit.value;
      var t' := t.(reactions := WithoutReaction(t.reactions, reactionId));
      assert ThoughtIssuedBelow(t, nextId);
      WithoutReactionDropsOne(t.reactions, k);
      RemoveReactionIssued(t, k, nextId);
      if !ValidThought(t') {
        return Invalid;
      }
      thoughts := thoughts[i := t'];
      r := Ok(());
    }

    // ---- friends ----

    /** POST /api/users/:userId/friends/:friendId: both users must exist; the
        friend's id is appended to the user's list even if already there, and
        the friend's own list is not touched. Saving the user validates it. */
    method AddFriend(userId: Id, friendId: Id) returns (r: Reply<()>)
      requires Valid()
      modifies this
      ensures Valid()
      ensures thoughts == old(thoughts) && nextId == old(nextId)
      ensures match (old(UserIndex(users, userId)), old(UserIndex(users, friendId)))
        case (Some(i), Some(_)) =>
          var u := old(users)[i];
          var u' := u.(friends := u.friends + [friendId]);
          && FriendCount(u') == FriendCount(u) + 1
          && Pull(u'.friends, friendId) == Pull(u.friends, friendId)
          && if ValidUser(u) then r == Ok(()) && users == old(users)[i := u']
             else r == Invalid && users == old(users)
        case _ => r == NotFound && users == old(users)
    {
      var ui := UserIndex(users, userId);
      var fi := UserIndex(users, friendId);
      if ui.None? || fi.None? {
        return NotFound;
      }
      var i := ui.value;
      var u := users[i];
      var u' := u.(friends := u.friends + [friendId]);
      PullAppend(u.friends, [friendId], friendId);
      if !ValidUser(u) {
        return Invalid;
      }
      assert UserIssuedBelow(u, nextId) && UserIssuedBelow(users[fi.value], nextId);
      users := users[i := u'];
      r := Ok(());
    }

    /** DELETE /api/users/:userId/friends/:friendId: both users must exist;
        every occurrence of the friend's id leaves the user's list, the rest
        keep their order, and the friend's own list is not touched. */
    method RemoveFriend(userId: Id, friendId: Id) returns (r: Reply<()>)
      requires Valid()
      modifies this
      ensures Valid()
      ensures thoughts == old(thoughts) && nextId == old(nextId)
      ensures match (old(UserIndex(users, userId)), old(UserIndex(users, friendId)))
        case (Some(i), Some(_)) =>
          var u := old(users)[i];
          var u' := u.(friends := Pull(u.friends, friendId));
          && friendId !in u'.friends
          && FriendCount(u') == FriendCount(u) - multiset(u.friends)[friendId]
          && if ValidUser(u) then r == Ok(()) && users == old(users)[i := u']
             else r == Invalid && users == old(users)
        case _ => r == NotFound && users == old(users)
    {
      var ui := UserIndex(users, userId);
      var fi := UserIndex(users, friendId);
      if ui.None? || fi.None? {
        return NotFound;
      }
      var i := ui.value;
      var u := users[i];
      var u' := u.(friends := Pull(u.friends, friendId));
      PullMultiset(u.friends, friendId);
      PullMembers(u.friends, friendId);
      if !ValidUser(u) {
        return Invalid;
      }
      assert UserIssuedBelow(u, nextId);
      users := users[i := u'];
      r := Ok(());
    }
  }
}
