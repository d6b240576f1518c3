# Social-network API: a verified model of the route handlers

`server.js` is an Express application backed by MongoDB through Mongoose.
It stores three kinds of documents:

- **users**, with a unique, trimmed username, a unique email matching a pattern, a list of thought ids and a list of friend ids;
- **thoughts**, with a text of 1 to 280 UTF-16 code units and the author's username copied in;
- **reactions**, embedded in a thought, each with a non-empty body of at most 280 UTF-16 code units and a username.

The fourteen route handlers list, read, create, update and delete users and thoughts. They also add and remove reactions, and add and remove friends.

This project models the database as one object, `Api.Store`. It has three fields:

- `users`, the user collection as a sequence;
- `thoughts`, the thought collection as a sequence, each thought carrying its reactions;
- `nextId`, which stands for the object-id generator.

Each handler is a method of `Store`. It returns `Ok(value)`, `NotFound` (the 404 answers) or `Invalid` (a save refused by a schema check or a unique index).

- `schema.dfy` (module `Schema`) holds the document shapes and the declarative field checks:
  - `required`;
  - `minlength` and `maxlength`, counted in UTF-16 code units as JavaScript does;
  - the `trim` setter;
  - the email regular expression.

  It also holds the `reactionCount` and `friendCount` virtuals, as functions with proved properties.
- `queries.dfy` (module `Queries`) holds the store queries the handlers issue, as functions on sequences:
  - `findById` and `findOne` by username;
  - the `find` and `filter` over a thought's reactions;
  - `deleteMany` by author;
  - the array `pull`.

  It also holds lemmas on what each query keeps and in which order.
- `api.dfy` (module `Api`) holds the store class and its invariant. Ids are distinct, usernames and emails are unique, and every id held anywhere was issued before `nextId`, so a dangling reference can never come to name a later document. Every handler keeps the invariant and states its whole new state.
- `scenario.dfy` (module `Scenario`) holds client code written against the handler contracts alone. It proves three round trips:
  - adding and then removing a reaction restores the thought;
  - adding and then removing a new friend restores the user;
  - creating and then deleting a thought restores the thoughts but leaves the id dangling in the author's list.

Behaviours of the code that are easy to miss:

- A reaction body must be non-empty, because it is `required`, as well as at most 280 long (server.js:16).
- Adding a friend pushes the id without checking for it (server.js:235), so the same id can appear more than once. Removing uses `pull` (server.js:258), taken here to remove every occurrence (see Left out).
- A new thought keeps the username exactly as given (server.js:25, 140), while the author lookup goes through the user model (server.js:144), whose username is trimmed (server.js:34).
- Deleting a thought leaves its id in its author's list (server.js:165-175), and deleting a user leaves that user's id in other users' friend lists (server.js:98-110).

## Model

| member | source | states |
|---|---|---|
| Schema.Utf16LengthBounds | server.js:23 | The JavaScript length of a text lies between its character count and twice it, and equals the character count exactly when every character is in the basic plane. |
| Schema.Utf16Length | server.js:16-23 | The length `maxlength` and `minlength` measure, in UTF-16 code units, lies between the character count and twice it. |
| Schema.ThoughtTextBounds | server.js:23 | For text in the basic plane the limits are exactly 1 to 280 characters. Any text of 1 to 140 characters with a present author and no reactions passes, whatever characters it holds. |
| Schema.Trim | server.js:34 | The stored form of a username. Its lemmas below show it is the middle slice with white space removed at both ends, is idempotent, and changes exactly the strings with white space at an end. |
| Schema.TrimStart | server.js:34 | Leading trim returns a suffix of the input. |
| Schema.TrimStartFirst | server.js:34 | What the leading trim keeps is empty or starts with a non-space. |
| Schema.TrimEnd | server.js:34 | Trailing trim returns a prefix of the input. |
| Schema.TrimEndLast | server.js:34 | What the trailing trim keeps is empty or ends with a non-space. |
| Schema.TrimStartDropsSpace | server.js:34 | Every character the leading trim drops is white space. |
| Schema.TrimEndDropsSpace | server.js:34 | Every character the trailing trim drops is white space. |
| Schema.TrimSlicePieces | server.js:34 | Dropping white space from the front and then from the back of the rest leaves one slice of the input with only white space around it. |
| Schema.TrimSlice | server.js:34 | The stored username is a contiguous slice of the given one with only white space before and after it; the lemma returns the slice bounds. |
| Schema.TrimIsSlice | server.js:34 | Such a slice exists, and the stored username neither starts nor ends with white space. |
| Schema.TrimFixedPoint | server.js:34 | Trim leaves a username unchanged if and only if it neither starts nor ends with white space. |
| Schema.TrimIdempotent | server.js:34 | Trimming an already trimmed username changes nothing. |
| Schema.IndexOfChar | server.js:35 | Returns the first position holding the character, or none when the character does not occur. |
| Schema.ValidEmailIsPattern | server.js:35 | Every email the scanning check accepts has a split matching `^[^\s@]+@[^\s@]+\.[^\s@]+$`. |
| Schema.SplitIsValidEmail | server.js:35 | Any split that matches the pattern makes the scanning check accept. |
| Schema.PatternIsValidEmail | server.js:35 | Every email matching the pattern passes the scanning check. |
| Schema.ValidEmail | server.js:35 | An accepted email has at least five characters and contains `@`. It accepts exactly the strings the pattern matches (ValidEmailMatchesPattern). |
| Schema.ValidEmailMatchesPattern | server.js:35 | The email check accepts exactly the strings the regular expression matches. |
| Schema.ValidReaction | server.js:15-17 | A saved reaction has a body of 1 to 280 characters (required, at most 280 UTF-16 code units) and a non-empty username. |
| Schema.ValidThought | server.js:22-27 | A saved thought has a text of 1 to 280 characters, a non-empty author name, and only reactions whose bodies hold 1 to 280 characters. |
| Schema.ValidUser | server.js:33-35 | A saved user has a non-empty (trimmed) username and an email the pattern matches. |
| Schema.ReactionCount | server.js:29-31 | The `reactionCount` virtual is the length of `reactions`. AddReaction raises it by one and RemoveReaction lowers it by one. |
| Schema.FriendCount | server.js:40-42 | The `friendCount` virtual is the length of `friends`. AddFriend raises it by one and RemoveFriend lowers it by the number of occurrences pulled. |
| Queries.UserIndex | server.js:61 | `findById` gives the first user with that id, or none when no user has it. |
| Queries.UserIndexByName | server.js:144 | The filter `{ username }` gives the first user with that name, or none when nobody has it. |
| Queries.ThoughtIndex | server.js:125 | `findById` gives the first thought with that id, or none when no thought has it. |
| Queries.ReactionIndex | server.js:203 | `find` gives the first reaction with that id, or none when no reaction has it. |
| Queries.WithoutAuthor | server.js:105 | `deleteMany` by author never leaves more thoughts than there were. |
| Queries.WithoutReaction | server.js:210 | The reaction filter never leaves more reactions than there were. |
| Queries.Pull | server.js:258 | `pull` never lengthens the friend list. |
| Queries.WithoutAuthorMembers | server.js:105 | A thought survives `deleteMany` exactly when it was stored and its author field differs from the name. |
| Queries.WithoutReactionMembers | server.js:210 | A reaction survives the filter exactly when it was on the thought and its id differs. |
| Queries.PullMembers | server.js:258 | An id survives `pull` exactly when it was in the list and differs from the pulled id. |
| Queries.WithoutAuthorAppend | server.js:105 | `deleteMany` works piecewise over concatenation, so survivors keep their order. |
| Queries.WithoutReactionAppend | server.js:210 | The filter works piecewise over concatenation, so the remaining reactions keep their order. |
| Queries.PullAppend | server.js:258 | `pull` works piecewise over concatenation, so the remaining friends keep their order. |
| Queries.WithoutAuthorNoMatch | server.js:105 | `deleteMany` changes nothing when no thought has that author. |
| Queries.WithoutReactionNoMatch | server.js:210 | The filter changes nothing when no reaction has that id. |
| Queries.PullNoMatch | server.js:258 | `pull` changes nothing when the id is absent. |
| Queries.WithoutReactionAround | server.js:210 | Filtering by an id that occurs once removes just that reaction and keeps the rest in order. |
| Queries.WithoutReactionDropsOne | server.js:203-210 | With distinct reaction ids, filtering by the id that `find` located removes exactly that position. The count drops by one. |
| Queries.WithoutReactionUndoesAppend | server.js:184-210 | Filtering out a freshly pushed reaction by its new id gives back the earlier reactions. |
| Queries.PullMultiset | server.js:258 | `pull` removes every occurrence and keeps every other id with its multiplicity. The length drops by the number of occurrences. |
| Queries.PullUndoesPush | server.js:235-258 | Pulling an id just pushed onto a list that lacked it gives back the list. |
| Api.Clashes | server.js:34-35 | The unique indexes refuse a write when another user already holds the username or email. UpdateUser returns Invalid exactly then; CreateUser returns Invalid then and also when a field check fails. The store invariant keeps both fields unique. |
| Api.PatchUser | server.js:87 | A user update keeps the id, thoughts and friends and every field it does not give. A given field is stored (the username trimmed): the email as given, the username as the slice of the given one between leading and trailing white space, so it neither starts nor ends with white space. An empty update changes nothing. |
| Api.PatchUserIdempotent | server.js:87 | Sending the same user update twice stores what sending it once does. |
| Api.PatchThought | server.js:154 | A thought update keeps the id, the reactions and every field it does not give. A given field is stored as given. An empty update changes nothing. |
| Api.PatchThoughtIdempotent | server.js:154 | Sending the same thought update twice stores what sending it once does. |
| Api.IssuedBelowGrows | server.js:77-78 | Advancing the id counter keeps every stored id below it. |
| Api.AppendKeepsUsersDistinct | server.js:34-35 | A new user with a fresh id whose username and email nobody holds keeps ids, usernames and emails unique. |
| Api.ReplaceKeepsUsersDistinct | server.js:87 | An update that clashes with no other user keeps the users unique. |
| Api.RemoveAtKeepsUsersDistinct | server.js:100 | Deleting a user keeps the rest unique. |
| Api.RemoveAtKeepsThoughtsDistinct | server.js:167 | Deleting a thought keeps the other thought ids distinct. |
| Api.WithoutAuthorKeepsDistinct | server.js:105 | The thoughts `deleteMany` leaves behind have distinct ids. |
| Api.WithoutAuthorKeepsIssued | server.js:105 | The thoughts `deleteMany` leaves behind only hold issued ids. |
| Api.RemoveAtKeepsIssued | server.js:100-167 | Deleting one user or one thought keeps every remaining id issued. |
| Api.AppendThoughtKeepsInvariant | server.js:142 | Saving a new thought under a fresh id keeps thought ids distinct and issued. |
| Api.LinkThoughtKeepsInvariant | server.js:144 | Pushing a thought id onto one user's list keeps users unique and ids issued. |
| Api.AppendReactionIssued | server.js:184-188 | A reaction under a fresh id differs from every earlier reaction id and keeps the thought's ids distinct and issued. |
| Api.RemoveReactionIssued | server.js:210-214 | Removing one reaction keeps the thought's reaction ids distinct and issued. |
| Api.Store.constructor | server.js:45-46 | The database starts with no users and no thoughts and satisfies the invariant. |
| Api.Store.ListUsers | server.js:50-57 | Returns every stored user, in order. |
| Api.Store.GetUser | server.js:59-69 | Not found exactly when no user has the id. Otherwise returns a stored user with that id. |
| Api.Store.CreateUser | server.js:73-83 | Stores a user with the trimmed name, the given email, a fresh id and empty lists, if the fields are valid and no one holds the name or email. Otherwise refuses and changes nothing. |
| Api.Store.UpdateUser | server.js:85-95 | Not found for an unknown id. Refused when another user holds the new name or email. Otherwise exactly that user is patched. |
| Api.Store.DeleteUser | server.js:98-110 | Not found for an unknown id. Otherwise exactly that user goes, along with every thought whose author field is their name. Nothing else changes. |
| Api.Store.ListThoughts | server.js:113-120 | Returns every stored thought, in order. |
| Api.Store.GetThought | server.js:123-133 | Not found exactly when no thought has the id. Otherwise returns a stored thought with that id. |
| Api.Store.CreateThought | server.js:136-149 | A valid thought is appended with a fresh id and no reactions. Its id goes at the end of the matching author's list, and no user changes when there is no such author. An invalid thought writes nothing. |
| Api.Store.UpdateThought | server.js:152-162 | Not found for an unknown id. Otherwise exactly that thought is patched, without validation. Users are untouched. |
| Api.Store.DeleteThought | server.js:165-175 | Not found for an unknown id. Otherwise exactly that thought goes and the id no longer resolves. Users, including the author's thought list, are untouched. |
| Api.Store.AddReaction | server.js:178-193 | Not found for an unknown thought. Otherwise the new reaction goes last under a fresh id, `reactionCount` rises by one, and filtering the new id out restores the old reactions. The save is refused, writing nothing, when the thought then fails its schema. |
| Api.Store.RemoveReaction | server.js:196-221 | Not found for an unknown thought or reaction. Otherwise exactly the found reaction goes, the others keep their order, and `reactionCount` drops by one. A thought that fails its schema is refused. |
| Api.Store.AddFriend | server.js:225-246 | Not found unless both users exist. Otherwise the friend id is appended even if already there, `friendCount` rises by one, pulling the friend id afterwards gives what pulling it from the old list gives, and the friend's own list is untouched. A user failing its schema is refused and nothing changes. |
| Api.Store.RemoveFriend | server.js:248-269 | Not found unless both users exist. Otherwise every occurrence of the friend id leaves the list and `friendCount` drops by their number. The friend's own list is untouched. |
| Scenario.ReactionRoundTrip | server.js:178-221 | Adding a reaction and removing it by its new id leaves users and thoughts as they were. |
| Scenario.FriendRoundTrip | server.js:225-269 | Adding a friend not yet listed and removing them leaves every user as before. |
| Scenario.DanglingThoughtId | server.js:136-175 | Creating and deleting a thought restores the thoughts, but the author's list keeps the deleted id at its end. |

## Left out

- HTTP routing, status codes and JSON bodies. A handler's reply is `Ok`, `NotFound` or `Invalid`. `Invalid` covers the 400 answer of a failed create and the 500 answers of failed saves and updates.
- `populate` (server.js:52, 61). The list and get handlers return references as ids, not embedded documents.
- `createdAt` and its locale-string getter (server.js:18, 24). Clocks are not modelled.
- Object ids. They are an abstract counter starting at 0. Malformed id strings (Mongoose cast errors, answered with 500) cannot be expressed.
- Request bodies with non-string values, and fields of an update body other than username, email, thoughtText and username. A missing body field is modelled as the empty string, which every `required` check rejects in the same way.
- The database connection, connection errors and other store failures (server.js:10-12). Console logging (server.js:208, 212, 218). Server start-up (server.js:273-274).
- Concurrency. Each handler is one atomic step. In the source, the deletion of a user and the cascading `deleteMany` are separate writes, and so are the save of a thought and the push onto its author.
- The unique indexes on username and email are taken as enforced on every write, including updates.
- `pull` removing every occurrence is taken as the store's array semantics.
- The store is taken to run schema setters on query filters, so the `trim` setter applies to the username in the author lookup (server.js:144). `Store.CreateThought` therefore looks up the trimmed name.
- The store is taken to validate every path of a loaded document when `save()` runs (server.js:188, 214, 236, 259). `Store.AddReaction`, `Store.RemoveReaction`, `Store.AddFriend` and `Store.RemoveFriend` therefore refuse a document that fails its schema and write nothing.
- The store is taken to run setters but not validators in `findByIdAndUpdate` (server.js:87, 154). `PatchUser` therefore trims the username, and neither update is validated.
- JavaScript strings holding unpaired surrogates (a JSON `"\ud800"` escape, say) cannot be written as Dafny strings. `Utf16Length`, trim and the email pattern are modelled on well-formed text only.
- Index declarations without a uniqueness constraint (server.js:23-25) have no behavioural effect and are not modelled.
