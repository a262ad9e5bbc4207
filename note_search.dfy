/**
 * `NoteRepository::searchNotes`: the owner's notes, narrowed by the
 * optional filters that are truthy, newest `updatedAt` first.
 *
 * The query is built the way the repository builds it: a list of
 * conditions, the owner condition always and each optional one only when
 * its parameter is truthy, all joined by AND, then ordered. `Matches` is
 * the independent statement of which notes belong in the result.
 */
module NoteSearch {
  import opened Base
  import opened Php
  import opened Entities

  /** One `andWhere` condition of the query. */
  datatype Condition =
    | OwnedBy(user: UserId)
    | TextLike(needle: string)
    | HasStatus(status: string)
    | InCategory(category: int)

  /** Whether a note satisfies one condition. `TextLike` is `title LIKE %s% OR content LIKE %s%`. */
  predicate Holds(c: Condition, n: Note) {
    match c
    case OwnedBy(user) => n.owner == user
    case TextLike(needle) => Contains(n.title, needle) || Contains(n.content, needle)
    case HasStatus(status) => n.status == status
    case InCategory(category) => n.category.Some? && n.category.value == category
  }

  /**
   * The conditions of one search: the owner always, then search text,
   * status and category, each only when truthy (a null, "", "0" or 0
   * filter adds nothing).
   */
  function Conditions(owner: UserId, search: Option<string>, status: Option<string>, category: Option<int>): (cs: seq<Condition>)
    ensures |cs| >= 1 && cs[0] == OwnedBy(owner)
    ensures TextLike(search.GetOr("")) in cs <==> IsTruthyOpt(search)
    ensures HasStatus(status.GetOr("")) in cs <==> IsTruthyOpt(status)
    ensures InCategory(category.GetOr(0)) in cs <==> category.Some? && category.value != 0
  {
    [OwnedBy(owner)]
    + (if IsTruthyOpt(search) then [TextLike(search.value)] else [])
    + (if IsTruthyOpt(status) then [HasStatus(status.value)] else [])
    + (if category.Some? && category.value != 0 then [InCategory(category.value)] else [])
  }

  /** The notes a search must return, stated filter by filter. */
  predicate Matches(n: Note, owner: UserId, search: Option<string>, status: Option<string>, category: Option<int>) {
    && n.owner == owner
    && (IsTruthyOpt(search) ==> Contains(n.title, search.value) || Contains(n.content, search.value))
    && (IsTruthyOpt(status) ==> n.status == status.value)
    && (category.Some? && category.value != 0 ==> n.category.Some? && n.category.value == category.value)
  }

  predicate HoldsAll(cs: seq<Condition>, n: Note) {
    forall k :: 0 <= k < |cs| ==> Holds(cs[k], n)
  }

  /** The conditions a search builds hold of a note exactly when it `Matches`. */
  lemma ConditionsMeanMatches(n: Note, owner: UserId, search: Option<string>, status: Option<string>, category: Option<int>)
    ensures HoldsAll(Conditions(owner, search, status, category), n) <==> Matches(n, owner, search, status, category)
  {
    var cs := Conditions(owner, search, status, category);
    if Matches(n, owner, search, status, category) {
      forall k | 0 <= k < |cs| ensures Holds(cs[k], n) {
        assert cs[k] in cs;
      }
    }
    if HoldsAll(cs, n) {
      assert Holds(cs[0], n);
      if IsTruthyOpt(search) {
        var k :| 0 <= k < |cs| && cs[k] == TextLike(search.value);
        assert Holds(cs[k], n);
      }
      if IsTruthyOpt(status) {
        var k :| 0 <= k < |cs| && cs[k] == HasStatus(status.value);
        assert Holds(cs[k], n);
      }
      if category.Some? && category.value != 0 {
        var k :| 0 <= k < |cs| && cs[k] == InCategory(category.value);
        assert Holds(cs[k], n);
      }
    }
  }

  /** The rows satisfying one condition, in their order, each as often as before. */
  function Where(notes: seq<Note>, c: Condition): (r: seq<Note>)
    ensures |r| <= |notes|
    ensures forall x :: multiset(r)[x] == if Holds(c, x) then multiset(notes)[x] else 0
  {
    if notes == [] then []
    else
      assert notes == [notes[0]] + notes[1..];
      (if Holds(c, notes[0]) then [notes[0]] else []) + Where(notes[1..], c)
  }

  /** The rows satisfying every condition. */
  function WhereAll(notes: seq<Note>, cs: seq<Condition>): (r: seq<Note>)
    ensures |r| <= |notes|
    ensures forall x :: x in r ==> x in notes
    decreases |cs|
  {
    if cs == [] then notes
    else
      var kept := Where(notes, cs[0]);
      assert forall x :: x in kept ==> x in notes by {
        forall x | x in kept ensures x in notes {
          assert multiset(kept)[x] > 0;
        }
      }
      WhereAll(kept, cs[1..])
  }

  lemma {:induction false} WhereAllCounts(notes: seq<Note>, cs: seq<Condition>, x: Note)
    ensures multiset(WhereAll(notes, cs))[x] == if HoldsAll(cs, x) then multiset(notes)[x] else 0
    decreases |cs|
  {
    if cs != [] {
      WhereAllCounts(Where(notes, cs[0]), cs[1..], x);
      assert HoldsAll(cs, x) <==> Holds(cs[0], x) && HoldsAll(cs[1..], x) by {
        if Holds(cs[0], x) && HoldsAll(cs[1..], x) {
          forall k | 0 <= k < |cs| ensures Holds(cs[k], x) {
            if k > 0 {
              assert cs[k] == cs[1..][k - 1];
            }
          }
        }
        if HoldsAll(cs, x) {
          forall k | 0 <= k < |cs| - 1 ensures Holds(cs[1..][k], x) {
            assert cs[1..][k] == cs[k + 1];
          }
        }
      }
    }
  }

  /** `orderBy('n.updatedAt', 'DESC')`: no note is followed by a more recently updated one. */
  predicate SortedByUpdatedDesc(s: seq<Note>) {
    forall i, j :: 0 <= i < j < |s| ==> s[i].updatedAt >= s[j].updatedAt
  }

  function InsertByUpdated(x: Note, s: seq<Note>): (r: seq<Note>)
    requires SortedByUpdatedDesc(s)
    ensures SortedByUpdatedDesc(r)
    ensures multiset(r) == multiset(s) + multiset{x}
  {
    if s == [] || x.updatedAt >= s[0].updatedAt then
      [x] + s
    else
      var rest := InsertByUpdated(x, s[1..]);
      assert s == [s[0]] + s[1..];
      HeadStaysFirst(x, s, rest);
      [s[0]] + rest
  }

  /** Inserting below the head of a sorted sequence leaves the head in front. */
  lemma HeadStaysFirst(x: Note, s: seq<Note>, rest: seq<Note>)
    requires SortedByUpdatedDesc(s) && s != [] && x.updatedAt < s[0].updatedAt
    requires SortedByUpdatedDesc(rest) && multiset(rest) == multiset(s[1..]) + multiset{x}
    ensures SortedByUpdatedDesc([s[0]] + rest)
  {
    forall j | 0 <= j < |rest| ensures rest[j].updatedAt <= s[0].updatedAt {
      assert rest[j] in multiset(rest);
      if rest[j] != x {
        assert rest[j] in s[1..];
        var k :| 0 <= k < |s[1..]| && s[1..][k] == rest[j];
        assert s[k + 1] == rest[j];
      }
    }
    var r := [s[0]] + rest;
    forall i, j | 0 <= i < j < |r| ensures r[i].updatedAt >= r[j].updatedAt {
      assert r[j] == rest[j - 1];
      if i > 0 {
        assert r[i] == rest[i - 1];
      }
    }
  }

  /** The result ordering: an insertion sort by `updatedAt`, newest first. */
  function SortByUpdatedDesc(s: seq<Note>): (r: seq<Note>)
    ensures SortedByUpdatedDesc(r)
    ensures multiset(r) == multiset(s)
  {
    if s == [] then []
    else
      assert s == [s[0]] + s[1..];
      InsertByUpdated(s[0], SortByUpdatedDesc(s[1..]))
  }

  /**
   * `searchNotes`: sorted newest first, and holding each note of the
   * table that `Matches` as often as the table does, and nothing else.
   */
  function SearchNotes(notes: seq<Note>, owner: UserId, search: Option<string>, status: Option<string>, category: Option<int>)
    : (r: seq<Note>)
    ensures SortedByUpdatedDesc(r)
    ensures forall x :: multiset(r)[x] == if Matches(x, owner, search, status, category) then multiset(notes)[x] else 0
  {
    var cs := Conditions(owner, search, status, category);
    var r := SortByUpdatedDesc(WhereAll(notes, cs));
    forall x ensures multiset(r)[x] == if Matches(x, owner, search, status, category) then multiset(notes)[x] else 0 {
      WhereAllCounts(notes, cs, x);
      ConditionsMeanMatches(x, owner, search, status, category);
    }
    r
  }

  /**
   * A note is returned exactly when it is in the table and matches every
   * active filter; in particular every returned note is the owner's, and
   * a search nothing matches returns the empty list.
   */
  lemma SearchComplete(notes: seq<Note>, owner: UserId, search: Option<string>, status: Option<string>, category: Option<int>)
    ensures var r := SearchNotes(notes, owner, search, status, category);
      && (forall n :: n in r <==> n in notes && Matches(n, owner, search, status, category))
      && (forall n :: n in r ==> n.owner == owner)
      && ((forall n :: n in notes ==> !Matches(n, owner, search, status, category)) ==> r == [])
  {
    var r := SearchNotes(notes, owner, search, status, category);
    assert forall n :: n in r <==> multiset(r)[n] > 0;
    assert forall n :: n in notes <==> multiset(notes)[n] > 0;
    if forall n :: n in notes ==> !Matches(n, owner, search, status, category) {
      if r != [] {
        assert r[0] in r;
      }
    }
  }

  /**
   * A falsy filter is the same as no filter: a null, "" or "0" search or
   * status, and a null or 0 category, change nothing.
   */
  lemma FalsyFiltersIgnored(notes: seq<Note>, owner: UserId, search: Option<string>, status: Option<string>, category: Option<int>)
    ensures !IsTruthyOpt(search) ==>
      SearchNotes(notes, owner, search, status, category) == SearchNotes(notes, owner, None, status, category)
    ensures !IsTruthyOpt(status) ==>
      SearchNotes(notes, owner, search, status, category) == SearchNotes(notes, owner, search, None, category)
    ensures category == Some(0) ==>
      SearchNotes(notes, owner, search, status, category) == SearchNotes(notes, owner, search, status, None)
  {
    if !IsTruthyOpt(search) {
      assert Conditions(owner, search, status, category) == Conditions(owner, None, status, category);
    }
    if !IsTruthyOpt(status) {
      assert Conditions(owner, search, status, category) == Conditions(owner, search, None, category);
    }
    if category == Some(0) {
      assert Conditions(owner, search, status, category) == Conditions(owner, search, status, None);
    }
  }

  /** With no active filter the search is exactly the owner's notes, reordered. */
  lemma UnfilteredIsAllOwned(notes: seq<Note>, owner: UserId)
    ensures forall n :: n in SearchNotes(notes, owner, None, None, None) <==> n in notes && n.owner == owner
  {
    SearchComplete(notes, owner, None, None, None);
  }
}
