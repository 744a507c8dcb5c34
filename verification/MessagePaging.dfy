/** Reading a ticket's messages page by page (src/modules/ticket/services/conversation.py):
    newest first from the database, each page reversed for display, and the first id of
    one page is the `before` cursor of the next. */
module MessagePaging {
  import opened Wrappers
  import opened StableSort

  datatype Msg = Msg(id: int, ticket: int, createdAt: int, live: bool)

  predicate Matches(m: Msg, ticket: int, before: Option<int>) {
    m.ticket == ticket && m.live && (before.Some? ==> m.id < before.value)
  }

  /** The WHERE clause, over rows in whatever order they are stored. */
  function Matching(rows: seq<Msg>, ticket: int, before: Option<int>): (r: seq<Msg>)
    ensures forall m :: m in r <==> m in rows && Matches(m, ticket, before)
  {
    if rows == [] then []
    else (if Matches(rows[0], ticket, before) then [rows[0]] else []) + Matching(rows[1..], ticket, before)
  }

  function NewestFirst(): (Msg, Msg) -> bool {
    (a: Msg, b: Msg) => a.createdAt >= b.createdAt
  }

  function Reversed(s: seq<Msg>): (r: seq<Msg>)
    ensures |r| == |s| && forall k | 0 <= k < |s| :: r[k] == s[|s| - 1 - k]
  {
    if s == [] then [] else Reversed(s[1..]) + [s[0]]
  }

  /** ORDER BY created_at DESC, LIMIT, then reversed. */
  function Page(rows: seq<Msg>, ticket: int, before: Option<int>, limit: nat): seq<Msg> {
    var newest := Sort(Matching(rows, ticket, before), NewestFirst());
    Reversed(newest[..if limit < |newest| then limit else |newest|])
  }

  function FetchMessageByLimit(rows: seq<Msg>, ticket: int, limit: nat): seq<Msg> {
    Page(rows, ticket, None, limit)
  }

  function FetchMessageByLimitAndBefore(rows: seq<Msg>, ticket: int, limit: nat, before: int): seq<Msg> {
    Page(rows, ticket, Some(before), limit)
  }

  /** `list_messages`: a missing or zero cursor means the newest page. */
  function ListMessages(rows: seq<Msg>, ticketFound: bool, ticket: int, limit: nat, before: Option<int>)
    : Result<seq<Msg>, string>
  {
    if !ticketFound then Failure("Ticket not found")
    else if before == None || before == Some(0) then Success(FetchMessageByLimit(rows, ticket, limit))
    else Success(FetchMessageByLimitAndBefore(rows, ticket, limit, before.value))
  }

  /** Ids are positive (a zero cursor would start over) and unique, and a later id means a later creation time. */
  predicate Chronological(rows: seq<Msg>) {
    && (forall m | m in rows :: m.id > 0)
    && (forall i, j | 0 <= i < j < |rows| :: rows[i].id != rows[j].id)
    && (forall a, b | a in rows && b in rows && a.id < b.id :: a.createdAt < b.createdAt)
  }

  predicate Ascending(s: seq<Msg>) {
    forall i, j | 0 <= i < j < |s| :: s[i].id < s[j].id && s[i].createdAt < s[j].createdAt
  }

  /** All of a ticket's live messages before the cursor, oldest first. */
  function Thread(rows: seq<Msg>, ticket: int, before: Option<int>): seq<Msg> {
    Reversed(Sort(Matching(rows, ticket, before), NewestFirst()))
  }

  lemma {:induction false} MatchingKeepsDistinct(rows: seq<Msg>, ticket: int, before: Option<int>)
    requires forall i, j | 0 <= i < j < |rows| :: rows[i].id != rows[j].id
    ensures Distinct(Matching(rows, ticket, before))
  {
    if rows == [] {
    } else {
      MatchingKeepsDistinct(rows[1..], ticket, before);
      assert rows[0] !in rows[1..];
    }
  }

  lemma {:induction false} ReversedMembers(s: seq<Msg>)
    ensures forall m :: m in Reversed(s) <==> m in s
  {
    if s == [] {
    } else {
      ReversedMembers(s[1..]);
      assert s == [s[0]] + s[1..];
    }
  }

  lemma ReversedAscends(rows: seq<Msg>, newest: seq<Msg>)
    requires Chronological(rows) && Distinct(newest) && Sorted(newest, NewestFirst())
    requires forall m | m in newest :: m in rows
    ensures Ascending(Reversed(newest))
  {
    var t := Reversed(newest);
    forall i, j | 0 <= i < j < |t|
      ensures t[i].id < t[j].id && t[i].createdAt < t[j].createdAt
    {
      var a, b := newest[|t| - 1 - j], newest[|t| - 1 - i];
      assert a in newest && b in newest;
      assert NewestFirst()(a, b) && a != b;
      if a.id == b.id {
        SameIdSameRow(rows, a, b);
      }
    }
  }

  /** The thread is the live messages, each exactly once, in order. */
  lemma ThreadIsOrdered(rows: seq<Msg>, ticket: int, before: Option<int>)
    requires Chronological(rows)
    ensures Ascending(Thread(rows, ticket, before))
    ensures forall m :: m in Thread(rows, ticket, before) <==>
              m in rows && m.ticket == ticket && m.live && (before.Some? ==> m.id < before.value)
  {
    var found := Matching(rows, ticket, before);
    var newest := Sort(found, NewestFirst());
    SortSorts(found, NewestFirst());
    MatchingKeepsDistinct(rows, ticket, before);
    SortKeepsDistinct(found, NewestFirst());
    ReversedAscends(rows, newest);
    ReversedMembers(newest);
  }

  lemma SameIdSameRow(rows: seq<Msg>, a: Msg, b: Msg)
    requires Chronological(rows) && a in rows && b in rows && a.id == b.id
    ensures a == b
  {
    var i :| 0 <= i < |rows| && rows[i] == a;
    var j :| 0 <= j < |rows| && rows[j] == b;
    assert i == j;
  }

  lemma {:induction false} AscendingIsUnique(a: seq<Msg>, b: seq<Msg>)
    requires Ascending(a) && Ascending(b)
    requires forall m :: m in a <==> m in b
    ensures a == b
    decreases |a|
  {
    if a == [] {
      assert forall k | 0 <= k < |b| :: b[k] in b;
    } else {
      assert a[0] in b && b[0] in a;
      assert a[0] == b[0];
      forall m
        ensures m in a[1..] <==> m in b[1..]
      {
        assert m in a[1..] <==> m in a && m != a[0];
        assert m in b[1..] <==> m in b && m != b[0];
      }
      AscendingIsUnique(a[1..], b[1..]);
    }
  }

  /** A page is the newest stretch of the thread; passing its first id as the cursor
      leaves exactly the messages before that stretch. */
  lemma PageEndsTheThread(rows: seq<Msg>, ticket: int, before: Option<int>, limit: nat)
    requires Chronological(rows) && limit >= 1
    ensures var t := Thread(rows, ticket, before);
            var p := Page(rows, ticket, before, limit);
            var k := if limit < |t| then |t| - limit else 0;
            && p == t[k..]
            && (p == [] <==> t == [])
            && (p != [] ==> Thread(rows, ticket, Some(p[0].id)) == t[..k])
  {
    hide Chronological;
    var t := Thread(rows, ticket, before);
    var p := Page(rows, ticket, before, limit);
    var k := if limit < |t| then |t| - limit else 0;
    assert p == t[k..] by {
      hide Sort, Matching;
    }
    if p != [] {
      hide Thread, Page;
      assert p[0] == t[k];
      CursorLeavesTheEarlier(rows, ticket, before, k);
    }
  }

  lemma CursorLeavesTheEarlier(rows: seq<Msg>, ticket: int, before: Option<int>, k: nat)
    requires Chronological(rows) && k < |Thread(rows, ticket, before)|
    ensures var t := Thread(rows, ticket, before);
            Thread(rows, ticket, Some(t[k].id)) == t[..k]
  {
    hide Thread, Chronological;
    var t := Thread(rows, ticket, before);
    var earlier := Thread(rows, ticket, Some(t[k].id));
    ThreadIsOrdered(rows, ticket, before);
    ThreadIsOrdered(rows, ticket, Some(t[k].id));
    assert t[k] in t;
    forall m
      ensures m in earlier <==> m in t[..k]
    {
      CursorSplits(t, k, m);
    }
    AscendingIsUnique(earlier, t[..k]);
  }

  lemma CursorSplits(t: seq<Msg>, k: nat, m: Msg)
    requires Ascending(t) && k < |t|
    ensures m in t[..k] <==> m in t && m.id < t[k].id
  {
    if m in t && m.id < t[k].id {
      var i :| 0 <= i < |t| && t[i] == m;
      assert i < k && t[..k][i] == m;
    }
  }

  lemma CursorMovesOn(rows: seq<Msg>, ticket: int, before: Option<int>, limit: nat)
    requires Chronological(rows) && limit >= 1 && Page(rows, ticket, before, limit) != []
    ensures var cursor := Page(rows, ticket, before, limit)[0].id;
            && cursor > 0
            && |Thread(rows, ticket, Some(cursor))| < |Thread(rows, ticket, before)|
  {
    hide Thread, Page;
    PageEndsTheThread(rows, ticket, before, limit);
    ThreadIsOrdered(rows, ticket, before);
    assert Page(rows, ticket, before, limit)[0] in Thread(rows, ticket, before);
  }

  /** The walk: list the newest page, then everything before its first id, until a page
      comes back empty. Pages are joined oldest first. */
  function Walk(rows: seq<Msg>, ticket: int, limit: nat, before: Option<int>): seq<Msg>
    requires Chronological(rows) && limit >= 1
    requires before != Some(0)
    decreases |Thread(rows, ticket, before)|
  {
    var page := ListMessages(rows, true, ticket, limit, before).value;
    if page == [] then []
    else
      CursorMovesOn(rows, ticket, before, limit);
      Walk(rows, ticket, limit, Some(page[0].id)) + page
  }

  /** The walk ends, and what it showed is the whole thread: every live message of the
      ticket exactly once, in order of creation. */
  lemma {:induction false} WalkIsTheThread(rows: seq<Msg>, ticket: int, limit: nat, before: Option<int>)
    requires Chronological(rows) && limit >= 1 && before != Some(0)
    ensures Walk(rows, ticket, limit, before) == Thread(rows, ticket, before)
    decreases |Thread(rows, ticket, before)|
  {
    hide Thread, Page, Chronological;
    var page := Page(rows, ticket, before, limit);
    PageEndsTheThread(rows, ticket, before, limit);
    if page == [] {
    } else {
      CursorMovesOn(rows, ticket, before, limit);
      WalkIsTheThread(rows, ticket, limit, Some(page[0].id));
    }
  }

  lemma WalkShowsTheThread(rows: seq<Msg>, ticket: int, limit: nat, before: Option<int>)
    requires Chronological(rows) && limit >= 1 && before != Some(0)
    ensures var shown := Walk(rows, ticket, limit, before);
            && (forall m :: m in shown <==>
                  m in rows && m.ticket == ticket && m.live && (before.Some? ==> m.id < before.value))
            && (forall i, j | 0 <= i < j < |shown| ::
                  shown[i].id < shown[j].id && shown[i].createdAt < shown[j].createdAt)
  {
    hide Walk, Thread, Chronological;
    WalkIsTheThread(rows, ticket, limit, before);
    ThreadIsOrdered(rows, ticket, before);
  }

  /** What one request lists: nothing of an unknown ticket; else, of the ticket's live messages
      before the cursor, where zero is none, the newest `limit`, oldest first. */
  lemma ListMessagesListsThePage(rows: seq<Msg>, found: bool, ticket: int, limit: nat, before: Option<int>)
    requires Chronological(rows) && limit >= 1
    ensures !found ==> ListMessages(rows, found, ticket, limit, before) == Failure("Ticket not found")
    ensures found ==>
              var t := Thread(rows, ticket, if before == Some(0) then None else before);
              var k := if limit < |t| then |t| - limit else 0;
              ListMessages(rows, found, ticket, limit, before) == Success(t[k..])
  {
    hide Thread, Page, Chronological;
    PageEndsTheThread(rows, ticket, if before == Some(0) then None else before, limit);
  }
}
