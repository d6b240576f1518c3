/** The three document shapes of the social-network API (users, thoughts and
    the reactions embedded in thoughts), the field checks their schemas
    declare, and the two virtual counts. Identifiers stand for the store's
    generated object ids. */
module Schema {

  type Id = nat

  datatype Option<T> = None | Some(value: T)

  /** A reaction lives only inside its thought's `reactions` sequence. */
  datatype Reaction = Reaction(id: Id, reactionBody: string, username: string)

  /** `username` is the author's name copied at creation, not a user id. */
  datatype Thought = Thought(id: Id, thoughtText: string, username: string, reactions: seq<Reaction>)

  /** `thoughts` and `friends` hold ids that may point at nothing. */
  datatype User = User(id: Id, username: string, email: string, thoughts: seq<Id>, friends: seq<Id>)

  /** Characters matched by `\s` in a JavaScript regular expression; `trim`
      removes exactly the same set. */
  predicate IsJsSpace(c: char)
  {
    ('\t' <= c <= '\r') || c == ' ' || c == '\U{00A0}' || c == '\U{1680}' ||
    ('\U{2000}' <= c <= '\U{200A}') || c == '\U{2028}' || c == '\U{2029}' ||
    c == '\U{202F}' || c == '\U{205F}' || c == '\U{3000}' || c == '\U{FEFF}'
  }

  /** The length JavaScript reports for a string: characters outside the
      basic multilingual plane take two UTF-16 code units. */
  function Utf16Length(s: string): (r: nat)
    ensures |s| <= r <= 2 * |s|
  {
    if s == [] then 0 else (if s[0] as int > 0xFFFF then 2 else 1) + Utf16Length(s[1..])
  }

  lemma {:induction false} Utf16LengthBounds(s: string)
    ensures |s| <= Utf16Length(s) <= 2 * |s|
    ensures Utf16Length(s) == |s| <==> forall k :: 0 <= k < |s| ==> s[k] as int <= 0xFFFF
  {
    if s != [] {
      Utf16LengthBounds(s[1..]);
      if s[0] as int <= 0xFFFF {
        forall k | 0 <= k < |s| && forall k' :: 0 <= k' < |s[1..]| ==> s[1..][k'] as int <= 0xFFFF
          ensures s[k] as int <= 0xFFFF
        {
          if k > 0 { assert s[k] == s[1..][k - 1]; }
        }
      }
    }
  }

  // ---- trim (the `trim: true` option on a user's username) ----

  function TrimStart(s: string): (r: string)
    ensures |r| <= |s| && r == s[|s| - |r|..]
  {
    if s != [] && IsJsSpace(s[0]) then TrimStart(s[1..]) else s
  }

  function TrimEnd(s: string): (r: string)
    ensures |r| <= |s| && r == s[..|r|]
  {
    if s != [] && IsJsSpace(s[|s| - 1]) then TrimEnd(s[..|s| - 1]) else s
  }

  /** What TrimStart keeps does not start with white space. */
  lemma {:induction false} TrimStartFirst(s: string)
    ensures TrimStart(s) == [] || !IsJsSpace(TrimStart(s)[0])
  {
    if s != [] && IsJsSpace(s[0]) {
      TrimStartFirst(s[1..]);
    }
  }

  /** What TrimEnd keeps does not end with white space. */
  lemma {:induction false} TrimEndLast(s: string)
    ensures TrimEnd(s) == [] || !IsJsSpace(TrimEnd(s)[|TrimEnd(s)| - 1])
  {
    if s != [] && IsJsSpace(s[|s| - 1]) {
      TrimEndLast(s[..|s| - 1]);
    }
  }

  /** Everything TrimStart drops is white space. */
  lemma {:induction false} TrimStartDropsSpace(s: string)
    ensures forall k :: 0 <= k < |s| - |TrimStart(s)| ==> IsJsSpace(s[k])
  {
    if s != [] && IsJsSpace(s[0]) {
      TrimStartDropsSpace(s[1..]);
      forall k | 1 <= k < |s| - |TrimStart(s)| ensures IsJsSpace(s[k]) {
        assert s[k] == s[1..][k - 1];
      }
    }
  }

  /** Everything TrimEnd drops is white space. */
  lemma {:induction false} TrimEndDropsSpace(s: string)
    ensures forall k :: |TrimEnd(s)| <= k < |s| ==> IsJsSpace(s[k])
  {
    if s != [] && IsJsSpace(s[|s| - 1]) {
      TrimEndDropsSpace(s[..|s| - 1]);
      forall k | |TrimEnd(s)| <= k < |s| - 1 ensures IsJsSpace(s[k]) {
        assert s[k] == s[..|s| - 1][k];
      }
    }
  }

  /** The stored form of a username: leading and trailing white space removed. */
  function Trim(s: string): (r: string)
  {
    TrimEnd(TrimStart(s))
  }

  /** Neither the first nor the last character is white space. */
  predicate TrimmedEnds(s: string)
  {
    s == [] || (!IsJsSpace(s[0]) && !IsJsSpace(s[|s| - 1]))
  }

  /** `s[a..b]` is what is left of `s` once the white space before `a` and
      from `b` on is dropped. */
  ghost predicate SliceBetweenSpaces(s: string, a: int, b: int)
  {
    && 0 <= a <= b <= |s|
    && (forall k :: 0 <= k < a ==> IsJsSpace(s[k]))
    && (forall k :: b <= k < |s| ==> IsJsSpace(s[k]))
  }

  /** Dropping white space before `a` and then after the first `|r|`
      characters of what is left keeps the slice `s[a..a + |r|]`. */
  lemma TrimSlicePieces(s: string, t: string, r: string, a: int, b: int)
    requires 0 <= a <= |s| && t == s[a..] && |r| <= |t| && r == t[..|r|] && b == a + |r|
    requires forall k :: 0 <= k < a ==> IsJsSpace(s[k])
    requires forall k :: |r| <= k < |t| ==> IsJsSpace(t[k])
    ensures SliceBetweenSpaces(s, a, b) && r == s[a..b]
  {
    forall k | b <= k < |s| ensures IsJsSpace(s[k]) {
      assert s[k] == t[k - a];
    }
  }

  /** Trim drops white space from the front, then from the back, of what
      is left: it keeps the slice `s[a..b]`. */
  lemma TrimSlice(s: string) returns (a: nat, b: nat)
    ensures SliceBetweenSpaces(s, a, b)
    ensures Trim(s) == s[a..b]
  {
    var t := TrimStart(s);
    var r := TrimEnd(t);
    a := |s| - |t|;
    b := a + |r|;
    assert SliceBetweenSpaces(s, a, b) && r == s[a..b] by {
      TrimStartDropsSpace(s);
      TrimEndDropsSpace(t);
      TrimSlicePieces(s, t, r, a, b);
    }
  }
  /** Trim keeps a contiguous middle part of its input, drops only white
      space around it, and leaves nothing trimmable behind. */
  lemma TrimIsSlice(s: string)
    ensures exists a, b :: SliceBetweenSpaces(s, a, b) && Trim(s) == s[a..b]
    ensures TrimmedEnds(Trim(s))
  {
    var t := TrimStart(s);
    var r := Trim(s);
    assert TrimmedEnds(r) by {
      TrimStartFirst(s);
      TrimEndLast(t);
      if r != [] {
        assert r[0] == t[0];
      }
    }
    var a, b := TrimSlice(s);
  }

  /** Trim leaves a string alone exactly when it neither starts nor ends
      with white space. */
  lemma TrimFixedPoint(s: string)
    ensures Trim(s) == s <==> TrimmedEnds(s)
  {
    TrimIsSlice(s);
    if s != [] && TrimmedEnds(s) {
      assert TrimStart(s) == s;
    }
  }

  /** Trimming twice is trimming once. */
  lemma TrimIdempotent(s: string)
    ensures Trim(Trim(s)) == Trim(s)
  {
    TrimIsSlice(s);
    var r := Trim(s);
    assert TrimStart(r) == r;
  }

  // ---- the email pattern /^[^\s@]+@[^\s@]+\.[^\s@]+$/ ----

  /** The character class `[^\s@]`: no white space and no `@`. */
  predicate PlainChar(c: char)
  {
    !IsJsSpace(c) && c != '@'
  }

  predicate PlainChars(s: string)
  {
    forall k :: 0 <= k < |s| ==> PlainChar(s[k])
  }

  /** What the regular expression accepts: a split of the whole string into
      a nonempty local part, `@`, a nonempty name, `.`, a nonempty rest,
      each part free of white space and `@`. */
  ghost predicate MatchesEmailPattern(s: string)
  {
    exists i, j :: EmailSplit(s, i, j)
  }

  /** `s[i]` is the `@` and `s[j]` the `.` of a match of the pattern. */
  predicate EmailSplit(s: string, i: int, j: int)
  {
    0 < i && i + 1 < j && j + 1 < |s| && s[i] == '@' && s[j] == '.' &&
    PlainChars(s[..i]) && PlainChars(s[i + 1..j]) && PlainChars(s[j + 1..])
  }

  function IndexOfChar(s: string, c: char): (r: Option<nat>)
    ensures r.Some? ==> r.value < |s| && s[r.value] == c && c !in s[..r.value]
    ensures r.None? ==> c !in s
  {
    if s == [] then None
    else if s[0] == c then Some(0)
    else match IndexOfChar(s[1..], c)
      case None => None
      case Some(k) => assert s[..k + 1] == [s[0]] + s[1..][..k]; Some(k + 1)
  }

  /** The email check, by scanning: one `@` after a nonempty local part,
      and a `.` strictly inside what follows it. */
  predicate ValidEmail(s: string): (b: bool)
    ensures b ==> 5 <= |s| && '@' in s
  {
    match IndexOfChar(s, '@')
    case None => false
    case Some(i) =>
      var domain := s[i + 1..];
      0 < i && PlainChars(s[..i]) && PlainChars(domain) && 3 <= |domain| &&
      '.' in domain[1..|domain| - 1]
  }

  lemma PlainSlice(s: string, a: nat, b: nat)
    requires PlainChars(s) && a <= b <= |s|
    ensures PlainChars(s[a..b])
  {
    forall k | 0 <= k < b - a ensures PlainChar(s[a..b][k]) {
      assert s[a..b][k] == s[a + k];
    }
  }

  /** Whatever the scanning check accepts, the pattern matches. */
  lemma ValidEmailIsPattern(s: string)
    requires ValidEmail(s)
    ensures MatchesEmailPattern(s)
  {
    var i := IndexOfChar(s, '@').value;
    var d := s[i + 1..];
    var m := d[1..|d| - 1];
    var k :| 0 <= k < |m| && m[k] == '.';
    var j := i + 2 + k;
    assert s[j] == d[1 + k] == '.';
    PlainSlice(d, 0, 1 + k);
    assert s[i + 1..j] == d[..1 + k];
    PlainSlice(d, 2 + k, |d|);
    assert s[j + 1..] == d[2 + k..];
    assert EmailSplit(s, i, j);
  }

  lemma FirstAt(s: string, i: nat)
    requires i < |s| && s[i] == '@' && PlainChars(s[..i])
    ensures IndexOfChar(s, '@') == Some(i)
  {
  }

  lemma PlainAcross(s: string, a: nat, j: nat)
    requires a <= j < |s| && PlainChars(s[a..j]) && PlainChar(s[j]) && PlainChars(s[j + 1..])
    ensures PlainChars(s[a..])
  {
    forall k | 0 <= k < |s| - a ensures PlainChar(s[a..][k]) {
      if a + k < j {
        assert s[a..][k] == s[a..j][k];
      } else if a + k > j {
        assert s[a..][k] == s[j + 1..][a + k - j - 1];
      }
    }
  }

  /** A `.` strictly inside a string gives the `[1..|d| - 1]` membership
      the scanning check asks for. */
  lemma DotInside(d: string, j: nat)
    requires 0 < j < |d| - 1 && d[j] == '.'
    ensures 3 <= |d| && '.' in d[1..|d| - 1]
  {
    assert d[1..|d| - 1][j - 1] == '.';
  }

  /** Whatever split the pattern finds, the scanning check accepts. */
  lemma SplitIsValidEmail(s: string, i: nat, j: nat)
    requires EmailSplit(s, i, j)
    ensures ValidEmail(s)
  {
    FirstAt(s, i);
    PlainAcross(s, i + 1, j);
    var d := s[i + 1..];
    assert d[j - i - 1] == '.';
    DotInside(d, j - i - 1);
  }

  /** Whatever the pattern matches, the scanning check accepts. */
  lemma PatternIsValidEmail(s: string)
    requires MatchesEmailPattern(s)
    ensures ValidEmail(s)
  {
    var i, j :| EmailSplit(s, i, j);
    SplitIsValidEmail(s, i, j);
  }

  /** The scanning check accepts exactly the strings the pattern matches. */
  lemma ValidEmailMatchesPattern(s: string)
    ensures ValidEmail(s) <==> MatchesEmailPattern(s)
  {
    if ValidEmail(s) { ValidEmailIsPattern(s); }
    if MatchesEmailPattern(s) { PatternIsValidEmail(s); }
  }

  // ---- field checks applied when a document is saved ----

  /** `required` on a string rejects the empty string (and an absent value,
      which this model writes as the empty string). */
  predicate Present(s: string)
  {
    |s| > 0
  }

  /** reactionBody: required, maxlength 280; username: required. A valid
      body holds 1 to 280 characters. */
  predicate ValidReaction(r: Reaction): (b: bool)
    ensures b ==> 1 <= |r.reactionBody| <= 280 && |r.username| > 0
  {
    Present(r.reactionBody) && Utf16Length(r.reactionBody) <= 280 && Present(r.username)
  }

  /** thoughtText: required, minlength 1, maxlength 280; username: required;
      every embedded reaction valid. */
  predicate ValidThought(t: Thought): (b: bool)
    ensures b ==> 1 <= |t.thoughtText| <= 280 && |t.username| > 0
    ensures b ==> forall k :: 0 <= k < |t.reactions| ==> 1 <= |t.reactions[k].reactionBody| <= 280
  {
    Present(t.thoughtText) && 1 <= Utf16Length(t.thoughtText) <= 280 && Present(t.username) &&
    forall k :: 0 <= k < |t.reactions| ==> ValidReaction(t.reactions[k])
  }

  /** username: required (after trimming); email: required, matches the pattern. */
  predicate ValidUser(u: User): (b: bool)
    ensures b ==> |u.username| > 0 && MatchesEmailPattern(u.email)
  {
    if ValidEmail(u.email) then
      ValidEmailIsPattern(u.email);
      Present(u.username) && Present(u.email)
    else
      false
  }

  /** For text in the basic multilingual plane the length limits are
      exactly 1 to 280 characters, and any text of 1 to 140 characters
      passes whatever it holds. */
  lemma ThoughtTextBounds(t: Thought)
    ensures (forall k :: 0 <= k < |t.thoughtText| ==> t.thoughtText[k] as int <= 0xFFFF) ==>
      (1 <= Utf16Length(t.thoughtText) <= 280 <==> 1 <= |t.thoughtText| <= 280)
    ensures Present(t.username) && 1 <= |t.thoughtText| <= 140 && t.reactions == [] ==> ValidThought(t)
  {
    Utf16LengthBounds(t.thoughtText);
  }

  /** The `reactionCount` virtual. */
  function ReactionCount(t: Thought): (r: nat)
  {
    |t.reactions|
  }

  /** The `friendCount` virtual. */
  function FriendCount(u: User): (r: nat)
  {
    |u.friends|
  }
}
