/** The `stories` and `votes` tables of the social news database, the read-only queries of
    stories_functions.py as functions of the two tables, and its writing queries as methods of
    the `Store` that holds them. */
module Stories {
  import opened Options
  import opened Text

  /** A row of `stories`; the timestamps are readings of the store's clock */
  datatype Story = Story(id: nat, title: string, url: string, createdAt: nat, updatedAt: nat)

  /** A row of `votes` */
  datatype Vote = Vote(direction: string, storyId: nat, createdAt: nat, updatedAt: nat)

  /** A story as the listing queries return it: its columns and the aggregated `score` */
  datatype Row = Row(story: Story, score: int)

  /** The values the schema admits in votes.direction */
  predicate ValidDirection(direction: string) {
    direction == "up" || direction == "down"
  }

  // ----- Scores -----------------------------------------------------------------------------

  /** The votes of one story, in table order (the rows `WHERE story_id = id`) */
  function VotesFor(votes: seq<Vote>, id: nat): (r: seq<Vote>)
    ensures forall v :: v in r <==> v in votes && v.storyId == id
    ensures |r| <= |votes|
  {
    if votes == [] then []
    else (if votes[0].storyId == id then [votes[0]] else []) + VotesFor(votes[1..], id)
  }

  /** The number of votes in `vs` cast in `direction` */
  function Occurrences(vs: seq<Vote>, direction: string): (n: nat)
    ensures n <= |vs|
  {
    if vs == [] then 0
    else (if vs[0].direction == direction then 1 else 0) + Occurrences(vs[1..], direction)
  }

  /** SUM(CASE direction WHEN 'up' THEN 1 ELSE -1 END), the aggregate of count_votes: every
      vote that is not 'up' counts against the story */
  function UpOrElseSum(vs: seq<Vote>): (r: int)
    ensures r == Occurrences(vs, "up") - (|vs| - Occurrences(vs, "up"))
  {
    if vs == [] then 0
    else (if vs[0].direction == "up" then 1 else -1) + UpOrElseSum(vs[1..])
  }

  /** SUM(CASE votes.direction WHEN 'up' THEN 1 WHEN 'down' THEN -1 ELSE 0 END), the aggregate
      of the listing queries; the NULL direction of a story without votes falls into ELSE 0 */
  function UpDownSum(vs: seq<Vote>): (r: int)
    ensures r == Occurrences(vs, "up") - Occurrences(vs, "down")
  {
    if vs == [] then 0
    else (if vs[0].direction == "up" then 1 else if vs[0].direction == "down" then -1 else 0)
         + UpDownSum(vs[1..])
  }

  /** count_votes: the story's score, absent (SQL NULL) when it has no votes */
  function CountVotes(votes: seq<Vote>, id: nat): (r: Option<int>)
    ensures r.None? <==> VotesFor(votes, id) == []
    ensures r.Some? ==> r.value == Occurrences(VotesFor(votes, id), "up")
                                   - (|VotesFor(votes, id)| - Occurrences(VotesFor(votes, id), "up"))
  {
    var vs := VotesFor(votes, id);
    if vs == [] then None else Some(UpOrElseSum(vs))
  }

  /** The `score` column of the listing queries: up-votes minus down-votes, 0 without votes */
  function ListedScore(votes: seq<Vote>, id: nat): (r: int)
    ensures r == Occurrences(VotesFor(votes, id), "up") - Occurrences(VotesFor(votes, id), "down")
  {
    UpDownSum(VotesFor(votes, id))
  }

  /** A story has votes exactly when some vote carries its id */
  lemma VotesForEmpty(votes: seq<Vote>, id: nat)
    ensures VotesFor(votes, id) == [] <==> forall v :: v in votes ==> v.storyId != id
  {
    var vs := VotesFor(votes, id);
    if vs != [] { assert vs[0] in vs; }
  }

  /** count_votes is absent exactly for a story no vote refers to; the listings give it 0 */
  lemma NoVotesMeansNoScore(votes: seq<Vote>, id: nat)
    ensures CountVotes(votes, id).None? <==> forall v :: v in votes ==> v.storyId != id
    ensures CountVotes(votes, id).None? ==> ListedScore(votes, id) == 0
  {
    VotesForEmpty(votes, id);
  }

  function RowOf(s: Story, votes: seq<Vote>): Row {
    Row(s, ListedScore(votes, s.id))
  }

  // ----- Read-only queries ----------------------------------------------------------------

  /** load_all_stories: every story, LEFT JOINed with its votes and grouped by story, so that a
      story without votes is listed too, once */
  function LoadAllStories(stories: seq<Story>, votes: seq<Vote>): (rows: seq<Row>)
    ensures |rows| == |stories|
    ensures forall i :: 0 <= i < |stories| ==>
              rows[i].story == stories[i] &&
              rows[i].score == Occurrences(VotesFor(votes, stories[i].id), "up")
                               - Occurrences(VotesFor(votes, stories[i].id), "down")
  {
    seq(|stories|, i requires 0 <= i < |stories| => RowOf(stories[i], votes))
  }

  /** Some story with this id is stored */
  ghost predicate HasStory(stories: seq<Story>, id: nat) {
    exists s :: s in stories && s.id == id
  }

  /** No two stories share an id (stories.id is the primary key) */
  predicate DistinctIds(stories: seq<Story>) {
    forall i, j :: 0 <= i < j < |stories| ==> stories[i].id != stories[j].id
  }

  /** find_story_with_id: the story with this id, or nothing */
  function FindStoryWithId(stories: seq<Story>, id: nat): (r: Option<Story>)
    ensures r.Some? ==> r.value in stories && r.value.id == id
    ensures r.None? <==> !HasStory(stories, id)
  {
    if stories == [] then None
    else if stories[0].id == id then Some(stories[0])
    else
      var r := FindStoryWithId(stories[1..], id);
      assert forall s :: s in stories ==> s == stories[0] || s in stories[1..];
      r
  }

  /** The WHERE clause of find_specific_story: the lower-cased title contains the lower-cased
      search text */
  predicate TitleMatches(title: string, search: string) {
    Contains(Lower(title), Lower(search))
  }

  /** find_specific_story: the listed rows of exactly the stories whose title matches */
  function FindSpecificStory(stories: seq<Story>, votes: seq<Vote>, search: string): (rows: seq<Row>)
    ensures |rows| <= |stories|
    ensures forall row :: row in rows <==>
              row.story in stories && TitleMatches(row.story.title, search) &&
              row.score == ListedScore(votes, row.story.id)
  {
    if stories == [] then []
    else
      var rest := FindSpecificStory(stories[1..], votes, search);
      assert forall s :: s in stories ==> s == stories[0] || s in stories[1..];
      if TitleMatches(stories[0].title, search) then [RowOf(stories[0], votes)] + rest else rest
  }

  /** No story is listed twice */
  predicate OncePerStory(rows: seq<Row>) {
    forall i, j :: 0 <= i < j < |rows| ==> rows[i].story.id != rows[j].story.id
  }

  /** GROUP BY stories.id: in a table with a primary key, find_specific_story lists each matching
      story once */
  lemma {:induction false} FindSpecificStoryListsEachOnce(stories: seq<Story>, votes: seq<Vote>, search: string)
    requires DistinctIds(stories)
    ensures OncePerStory(FindSpecificStory(stories, votes, search))
  {
    if stories != [] {
      var rest := FindSpecificStory(stories[1..], votes, search);
      assert DistinctIds(stories[1..]) by {
        forall i, j | 0 <= i < j < |stories[1..]| ensures stories[1..][i].id != stories[1..][j].id {
          assert stories[1..][i] == stories[i + 1] && stories[1..][j] == stories[j + 1];
        }
      }
      FindSpecificStoryListsEachOnce(stories[1..], votes, search);
      if TitleMatches(stories[0].title, search) {
        HeadIdNotInTail(stories);
        var r := [RowOf(stories[0], votes)] + rest;
        assert FindSpecificStory(stories, votes, search) == r;
        forall i, j | 0 <= i < j < |r| ensures r[i].story.id != r[j].story.id {
          assert r[j] == rest[j - 1] && r[j] in rest;
          if i > 0 {
            assert r[i] == rest[i - 1];
          }
        }
      } else {
        assert FindSpecificStory(stories, votes, search) == rest;
      }
    }
  }

  // ----- Sorting ---------------------------------------------------------------------------

  /** The columns sort_stories orders by */
  datatype Column = Title | Score | CreatedAt | UpdatedAt

  /** The column sort_stories orders by for a sort parameter: "created" becomes created_at,
      "modified" updated_at; exactly the four values the handler admits have one */
  function ColumnFor(sortType: string): (c: Option<Column>)
    ensures c.Some? <==> sortType in {"title", "score", "created", "modified"}
    ensures sortType == "title" ==> c == Some(Title)
    ensures sortType == "score" ==> c == Some(Score)
    ensures sortType == "created" ==> c == Some(CreatedAt)
    ensures sortType == "modified" ==> c == Some(UpdatedAt)
  {
    match sortType
    case "title" => Some(Title)
    case "score" => Some(Score)
    case "created" => Some(CreatedAt)
    case "modified" => Some(UpdatedAt)
    case _ => None
  }

  /** The sort order is ASC exactly when no order is given or it is "ascending" */
  predicate Ascending(order: Option<string>) {
    order == None || order == Some("ascending")
  }

  /** `a` may come before `b` in ascending order of `col`; titles compare by INITCAP(title) */
  predicate KeyLe(a: Row, b: Row, col: Column) {
    match col
    case Title => LexLe(InitCap(a.story.title), InitCap(b.story.title))
    case Score => a.score <= b.score
    case CreatedAt => a.story.createdAt <= b.story.createdAt
    case UpdatedAt => a.story.updatedAt <= b.story.updatedAt
  }

  /** `a` may come before `b` in the requested direction */
  predicate Before(a: Row, b: Row, col: Column, asc: bool) {
    if asc then KeyLe(a, b, col) else KeyLe(b, a, col)
  }

  lemma BeforeTotal(a: Row, b: Row, col: Column, asc: bool)
    ensures Before(a, b, col, asc) || Before(b, a, col, asc)
  {
    if col == Title {
      LexLeTotal(InitCap(a.story.title), InitCap(b.story.title));
    }
  }

  lemma BeforeTransitive(a: Row, b: Row, c: Row, col: Column, asc: bool)
    requires Before(a, b, col, asc) && Before(b, c, col, asc)
    ensures Before(a, c, col, asc)
  {
    if col == Title {
      if asc {
        LexLeTransitive(InitCap(a.story.title), InitCap(b.story.title), InitCap(c.story.title));
      } else {
        LexLeTransitive(InitCap(c.story.title), InitCap(b.story.title), InitCap(a.story.title));
      }
    }
  }

  /** ORDER BY col ASC/DESC holds of `rows` */
  predicate SortedBy(rows: seq<Row>, col: Column, asc: bool) {
    forall i, j :: 0 <= i < j < |rows| ==> Before(rows[i], rows[j], col, asc)
  }

  function InsertRow(x: Row, rows: seq<Row>, col: Column, asc: bool): (r: seq<Row>)
    ensures multiset(r) == multiset(rows) + multiset{x}
    ensures |r| == |rows| + 1
  {
    if rows == [] || Before(x, rows[0], col, asc) then [x] + rows
    else
      assert rows == [rows[0]] + rows[1..];
      [rows[0]] + InsertRow(x, rows[1..], col, asc)
  }

  /** Every row of an insertion is the inserted row or one of the others */
  lemma InsertRowFrom(x: Row, rows: seq<Row>, col: Column, asc: bool, j: nat)
    requires j < |InsertRow(x, rows, col, asc)|
    ensures InsertRow(x, rows, col, asc)[j] == x || InsertRow(x, rows, col, asc)[j] in rows
  {
    var r := InsertRow(x, rows, col, asc);
    assert r[j] in multiset(r);
  }

  /** A row that may come before every row of a sorted list may be put in front of it */
  lemma SortedCons(x: Row, rows: seq<Row>, col: Column, asc: bool)
    requires SortedBy(rows, col, asc)
    requires forall j :: 0 <= j < |rows| ==> Before(x, rows[j], col, asc)
    ensures SortedBy([x] + rows, col, asc)
  {
    var r := [x] + rows;
    forall i, j | 0 <= i < j < |r| ensures Before(r[i], r[j], col, asc) {
      assert r[j] == rows[j - 1];
      if i > 0 {
        assert r[i] == rows[i - 1];
      }
    }
  }

  /** In a sorted list, the first row may come before every row that follows it */
  lemma SortedHeadFirst(rows: seq<Row>, col: Column, asc: bool)
    requires rows != [] && SortedBy(rows, col, asc)
    ensures forall y :: y in rows[1..] ==> Before(rows[0], y, col, asc)
  {
    forall y | y in rows[1..] ensures Before(rows[0], y, col, asc) {
      var k :| 0 <= k < |rows[1..]| && rows[1..][k] == y;
      assert rows[k + 1] == y;
    }
  }

  /** A row that may come before the first row of a sorted list may come before all of them */
  lemma BeforeSorted(x: Row, rows: seq<Row>, col: Column, asc: bool)
    requires rows != [] && SortedBy(rows, col, asc) && Before(x, rows[0], col, asc)
    ensures forall j :: 0 <= j < |rows| ==> Before(x, rows[j], col, asc)
  {
    forall j | 0 < j < |rows| ensures Before(x, rows[j], col, asc) {
      BeforeTransitive(x, rows[0], rows[j], col, asc);
    }
  }

  lemma {:induction false} InsertRowSorted(x: Row, rows: seq<Row>, col: Column, asc: bool)
    requires SortedBy(rows, col, asc)
    ensures SortedBy(InsertRow(x, rows, col, asc), col, asc)
  {
    if rows == [] || Before(x, rows[0], col, asc) {
      if rows != [] {
        BeforeSorted(x, rows, col, asc);
      }
      SortedCons(x, rows, col, asc);
    } else {
      BeforeTotal(x, rows[0], col, asc);
      SortedHeadFirst(rows, col, asc);
      var tail := InsertRow(x, rows[1..], col, asc);
      InsertRowSorted(x, rows[1..], col, asc);
      forall j | 0 <= j < |tail| ensures Before(rows[0], tail[j], col, asc) {
        InsertRowFrom(x, rows[1..], col, asc, j);
      }
      SortedCons(rows[0], tail, col, asc);
    }
  }

  /** Insertion sort of the listed rows by one column in one direction */
  function SortRows(rows: seq<Row>, col: Column, asc: bool): (r: seq<Row>)
    ensures multiset(r) == multiset(rows)
    ensures SortedBy(r, col, asc)
  {
    if rows == [] then []
    else
      assert rows == [rows[0]] + rows[1..];
      var sorted := SortRows(rows[1..], col, asc);
      InsertRowSorted(rows[0], sorted, col, asc);
      InsertRow(rows[0], sorted, col, asc)
  }

  /** sort_stories: all listed rows, each story once, ordered by `col`, ascending exactly when
      `order` is absent or "ascending" and descending otherwise */
  function SortStories(stories: seq<Story>, votes: seq<Vote>, col: Column, order: Option<string>)
    : (rows: seq<Row>)
    ensures multiset(rows) == multiset(LoadAllStories(stories, votes))
    ensures Ascending(order) ==>
              forall i, j :: 0 <= i < j < |rows| ==> KeyLe(rows[i], rows[j], col)
    ensures !Ascending(order) ==>
              forall i, j :: 0 <= i < j < |rows| ==> KeyLe(rows[j], rows[i], col)
  {
    SortRows(LoadAllStories(stories, votes), col, Ascending(order))
  }

  /** Ordering by title does not see case: titles equal up to case compare alike */
  lemma TitleOrderIgnoresCase(a: Row, a': Row, b: Row)
    requires Lower(a.story.title) == Lower(a'.story.title)
    ensures KeyLe(a, b, Title) == KeyLe(a', b, Title)
    ensures KeyLe(b, a, Title) == KeyLe(b, a', Title)
  {
    InitCapIgnoresCase(a.story.title, a'.story.title);
  }

  // ----- Effects of the writing queries on the tables and the scores ----------------------

  /** The stories left by DELETE FROM stories WHERE id = id */
  function StoriesWithoutId(stories: seq<Story>, id: nat): (r: seq<Story>)
    ensures forall s :: s in r <==> s in stories && s.id != id
    ensures |r| <= |stories|
  {
    if stories == [] then []
    else (if stories[0].id == id then [] else [stories[0]]) + StoriesWithoutId(stories[1..], id)
  }


  /** Deleting from two tables put end to end deletes from each: the rows that stay keep their
      order */
  lemma {:induction false} StoriesWithoutIdConcat(a: seq<Story>, b: seq<Story>, id: nat)
    ensures StoriesWithoutId(a + b, id) == StoriesWithoutId(a, id) + StoriesWithoutId(b, id)
  {
    if a != [] {
      var x, t := a[0], a[1..];
      var ab := a + b;
      assert ab[0] == x && ab[1..] == t + b;
      StoriesWithoutIdConcat(t, b, id);
      var head := if x.id == id then [] else [x];
      calc {
        StoriesWithoutId(ab, id);
        head + StoriesWithoutId(t + b, id);
        head + (StoriesWithoutId(t, id) + StoriesWithoutId(b, id));
        (head + StoriesWithoutId(t, id)) + StoriesWithoutId(b, id);
      }
    } else {
      assert a + b == b;
    }
  }



  /** In a table with a primary key, the first story's id is not the id of a later one */
  lemma HeadIdNotInTail(stories: seq<Story>)
    requires stories != [] && DistinctIds(stories)
    ensures forall s :: s in stories[1..] ==> s.id != stories[0].id
  {
    forall s | s in stories[1..] ensures s.id != stories[0].id {
      var k :| 0 <= k < |stories[1..]| && stories[1..][k] == s;
      assert stories[k + 1] == s;
    }
  }

  /** A story whose id no other story has may be put in front of a table with a primary key */
  lemma DistinctIdsCons(x: Story, rest: seq<Story>)
    requires DistinctIds(rest)
    requires forall s :: s in rest ==> s.id != x.id
    ensures DistinctIds([x] + rest)
  {
    var r := [x] + rest;
    forall i, j | 0 <= i < j < |r| ensures r[i].id != r[j].id {
      assert r[j] == rest[j - 1] && r[j] in rest;
      if i > 0 {
        assert r[i] == rest[i - 1];
      }
    }
  }

  /** Deleting stories keeps the primary key a key */
  lemma {:induction false} StoriesWithoutIdKeepsIdsDistinct(stories: seq<Story>, id: nat)
    requires DistinctIds(stories)
    ensures DistinctIds(StoriesWithoutId(stories, id))
  {
    if stories != [] {
      var rest := StoriesWithoutId(stories[1..], id);
      StoriesWithoutIdKeepsIdsDistinct(stories[1..], id);
      if stories[0].id != id {
        HeadIdNotInTail(stories);
        DistinctIdsCons(stories[0], rest);
        assert StoriesWithoutId(stories, id) == [stories[0]] + rest;
      } else {
        assert StoriesWithoutId(stories, id) == rest;
      }
    }
  }

  /** The votes left by DELETE FROM votes WHERE story_id = id */
  function VotesWithoutStory(votes: seq<Vote>, id: nat): (r: seq<Vote>)
    ensures forall v :: v in r <==> v in votes && v.storyId != id
    ensures |r| <= |votes|
  {
    if votes == [] then []
    else (if votes[0].storyId == id then [] else [votes[0]]) + VotesWithoutStory(votes[1..], id)
  }


  /** The same for the votes: the votes that stay keep their order */
  lemma {:induction false} VotesWithoutStoryConcat(a: seq<Vote>, b: seq<Vote>, id: nat)
    ensures VotesWithoutStory(a + b, id) == VotesWithoutStory(a, id) + VotesWithoutStory(b, id)
  {
    if a != [] {
      var x, t := a[0], a[1..];
      var ab := a + b;
      assert ab[0] == x && ab[1..] == t + b;
      VotesWithoutStoryConcat(t, b, id);
      var head := if x.storyId == id then [] else [x];
      calc {
        VotesWithoutStory(ab, id);
        head + VotesWithoutStory(t + b, id);
        head + (VotesWithoutStory(t, id) + VotesWithoutStory(b, id));
        (head + VotesWithoutStory(t, id)) + VotesWithoutStory(b, id);
      }
    } else {
      assert a + b == b;
    }
  }



  /** `after` is `before` with the story `id` given a new title, url and updated_at, as
      UPDATE stories SET title, url, updated_at WHERE id = id leaves it */
  ghost predicate EditedFrom(before: seq<Story>, after: seq<Story>, id: nat, url: string,
                             title: string, now: nat)
  {
    && |after| == |before|
    && forall i :: 0 <= i < |before| ==>
         after[i] == if before[i].id == id then before[i].(title := title, url := url, updatedAt := now)
                     else before[i]
  }

  /** Updating an id that no story has leaves the table as it was */
  lemma EditOfMissingIdChangesNothing(before: seq<Story>, after: seq<Story>, id: nat, url: string,
                                      title: string, now: nat)
    requires EditedFrom(before, after, id, url, title, now)
    requires !HasStory(before, id)
    ensures after == before
  {
    forall i | 0 <= i < |before| ensures after[i] == before[i] {
      assert before[i] in before;
    }
  }

  lemma {:induction false} OccurrencesAppend(vs: seq<Vote>, v: Vote, direction: string)
    ensures Occurrences(vs + [v], direction)
            == Occurrences(vs, direction) + (if v.direction == direction then 1 else 0)
  {
    if vs != [] {
      assert (vs + [v])[1..] == vs[1..] + [v];
      OccurrencesAppend(vs[1..], v, direction);
    }
  }

  lemma {:induction false} VotesForAppend(votes: seq<Vote>, v: Vote, id: nat)
    ensures VotesFor(votes + [v], id) == VotesFor(votes, id) + (if v.storyId == id then [v] else [])
  {
    var last := if v.storyId == id then [v] else [];
    if votes == [] {
      assert votes + [v] == [v] && [v][1..] == [];
    } else {
      var w, t := votes[0], votes[1..];
      var all := votes + [v];
      assert all[0] == w && all[1..] == t + [v];
      VotesForAppend(t, v, id);
      var head := if w.storyId == id then [w] else [];
      calc {
        VotesFor(all, id);
        head + VotesFor(t + [v], id);
        head + (VotesFor(t, id) + last);
        (head + VotesFor(t, id)) + last;
      }
    }
  }


  /** After add_votes, a story other than the one voted on keeps its score */
  lemma {:induction false} CountVotesAfterOtherVote(votes: seq<Vote>, v: Vote, id: nat)
    requires v.storyId != id
    ensures CountVotes(votes + [v], id) == CountVotes(votes, id)
  {
    VotesForAppend(votes, v, id);
    assert VotesFor(votes, id) + [] == VotesFor(votes, id);
    assert VotesFor(votes + [v], id) == VotesFor(votes, id);
  }

  /** After add_votes, the story voted on has one vote more in its score */
  /** count_votes' aggregate over one vote more */
  lemma UpOrElseSumAppend(vs: seq<Vote>, v: Vote)
    ensures UpOrElseSum(vs + [v]) == UpOrElseSum(vs) + (if v.direction == "up" then 1 else -1)
  {
    OccurrencesAppend(vs, v, "up");
  }

  /** After add_votes, a story voted on for the first time has the score of that one vote */
  lemma {:induction false} CountVotesAfterFirstVote(votes: seq<Vote>, v: Vote)
    requires CountVotes(votes, v.storyId).None?
    ensures CountVotes(votes + [v], v.storyId) == Some(if v.direction == "up" then 1 else -1)
  {
    VotesForAppend(votes, v, v.storyId);
    assert VotesFor(votes + [v], v.storyId) == [v];
  }

  /** After add_votes, a story that had votes has its score moved by one */
  lemma {:induction false} CountVotesAfterOwnVote(votes: seq<Vote>, v: Vote)
    requires CountVotes(votes, v.storyId).Some?
    ensures CountVotes(votes + [v], v.storyId)
            == Some(CountVotes(votes, v.storyId).value + (if v.direction == "up" then 1 else -1))
  {
    var vs := VotesFor(votes, v.storyId);
    VotesForAppend(votes, v, v.storyId);
    UpOrElseSumAppend(vs, v);
  }

  lemma {:induction false} VotesForWithoutStory(votes: seq<Vote>, id: nat, other: nat)
    ensures VotesFor(VotesWithoutStory(votes, id), other)
            == if other == id then [] else VotesFor(votes, other)
  {
    if votes != [] {
      var w := votes[0];
      var rest := VotesWithoutStory(votes[1..], id);
      VotesForWithoutStory(votes[1..], id, other);
      if w.storyId == id {
        assert VotesWithoutStory(votes, id) == rest;
      } else {
        var kept := [w] + rest;
        assert VotesWithoutStory(votes, id) == kept;
        assert kept[0] == w && kept[1..] == rest;
        assert VotesFor(kept, other)
               == (if w.storyId == other then [w] else []) + VotesFor(rest, other);
      }
    }
  }

  /** After delete_story, the deleted story has no score and every other story keeps its own */
  lemma CountVotesAfterDelete(votes: seq<Vote>, id: nat, other: nat)
    ensures CountVotes(VotesWithoutStory(votes, id), id) == None
    ensures other != id ==> CountVotes(VotesWithoutStory(votes, id), other) == CountVotes(votes, other)
    ensures other != id ==> ListedScore(VotesWithoutStory(votes, id), other) == ListedScore(votes, other)
  {
    VotesForWithoutStory(votes, id, id);
    VotesForWithoutStory(votes, id, other);
  }

  lemma {:induction false} UpAndDownAreAll(vs: seq<Vote>)
    requires forall v :: v in vs ==> ValidDirection(v.direction)
    ensures Occurrences(vs, "up") + Occurrences(vs, "down") == |vs|
  {
    if vs != [] {
      assert vs[0] in vs;
      assert forall v :: v in vs[1..] ==> v in vs;
      UpAndDownAreAll(vs[1..]);
    }
  }

  /** With every direction 'up' or 'down', count_votes and the listings agree on the score */
  lemma CountVotesAgreesWithListing(votes: seq<Vote>, id: nat)
    requires forall v :: v in votes ==> ValidDirection(v.direction)
    ensures CountVotes(votes, id)
            == if forall v :: v in votes ==> v.storyId != id then None
               else Some(ListedScore(votes, id))
  {
    var vs := VotesFor(votes, id);
    assert forall v :: v in vs ==> ValidDirection(v.direction);
    UpAndDownAreAll(vs);
    VotesForEmpty(votes, id);
    if vs != [] {
      assert CountVotes(votes, id).value == Occurrences(vs, "up") - Occurrences(vs, "down");
    }
  }

  /** A story just inserted, which no vote refers to yet, is listed with score 0 */
  lemma NewStoryIsListed(stories: seq<Story>, votes: seq<Vote>, s: Story)
    requires forall v :: v in votes ==> v.storyId != s.id
    ensures LoadAllStories(stories + [s], votes)[|stories|] == Row(s, 0)
    ensures Row(s, 0) in LoadAllStories(stories + [s], votes)
  {
    var rows := LoadAllStories(stories + [s], votes);
    VotesForEmpty(votes, s.id);
    assert rows[|stories|].story == s;
  }

  /** No story's count_votes score is negative */
  ghost predicate ScoresNonNegative(votes: seq<Vote>) {
    forall id: nat :: CountVotes(votes, id).Some? ==> CountVotes(votes, id).value >= 0
  }

  // ----- The store ----------------------------------------------------------------------------

  /** The database: both tables, the next id the `stories` sequence hands out, and a clock that
      stands for current_timestamp */
  class Store {
    var stories: seq<Story>
    var votes: seq<Vote>
    var nextId: nat
    var clock: nat

    /** Primary key, foreign key and check constraints of the schema, and timestamps of stories
        and votes that lie in the past */
    ghost predicate Valid()
      reads this
    {
      && DistinctIds(stories)
      && (forall s :: s in stories ==> s.id < nextId && s.createdAt <= s.updatedAt < clock)
      && (forall v :: v in votes ==>
            ValidDirection(v.direction) && HasStory(stories, v.storyId) && v.createdAt <= v.updatedAt < clock)
    }

    constructor ()
      ensures Valid()
      ensures stories == [] && votes == []
    {
      stories := [];
      votes := [];
      nextId := 1;
      clock := 0;
    }

    /** make_new_story: INSERT INTO stories with created_at = updated_at = current_timestamp */
    method MakeNewStory(url: string, title: string)
      requires Valid()
      modifies this
      ensures Valid()
      ensures stories == old(stories) + [Story(old(nextId), title, url, old(clock), old(clock))]
      ensures votes == old(votes)
      ensures nextId == old(nextId) + 1 && clock == old(clock) + 1
      ensures forall v :: v in votes ==> v.storyId != old(nextId)
    {
      var s := Story(nextId, title, url, clock, clock);
      assert forall v :: v in votes ==> v.storyId != nextId by {
        forall v | v in votes ensures v.storyId != nextId {
          var t :| t in stories && t.id == v.storyId;
        }
      }
      assert forall t :: t in stories + [s] <==> t in stories || t == s;
      stories := stories + [s];
      nextId := nextId + 1;
      clock := clock + 1;
    }

    /** update_stories: UPDATE stories SET title, url, updated_at = current_timestamp WHERE id */
    method UpdateStories(url: string, title: string, storyId: nat)
      requires Valid()
      modifies this
      ensures Valid()
      ensures EditedFrom(old(stories), stories, storyId, url, title, old(clock))
      ensures votes == old(votes) && nextId == old(nextId) && clock == old(clock) + 1
    {
      var before := stories;
      var now := clock;
      stories := seq(|before|, i requires 0 <= i < |before| =>
                   if before[i].id == storyId then before[i].(title := title, url := url, updatedAt := now)
                   else before[i]);
      clock := clock + 1;
      forall s | s in stories ensures s.id < nextId && s.createdAt <= s.updatedAt < clock {
        var i :| 0 <= i < |stories| && stories[i] == s;
        assert before[i] in before;
      }
      forall v | v in votes ensures HasStory(stories, v.storyId) {
        var t :| t in before && t.id == v.storyId;
        var i :| 0 <= i < |before| && before[i] == t;
        assert stories[i] in stories;
      }
    }

    /** add_votes: INSERT INTO votes; the insert is refused (the store raises) when the
        direction is not 'up' or 'down' or no story has this id */
    method AddVotes(direction: string, storyId: nat) returns (ok: bool)
      requires Valid()
      modifies this
      ensures Valid()
      ensures ok <==> ValidDirection(direction) && HasStory(old(stories), storyId)
      ensures ok ==> votes == old(votes) + [Vote(direction, storyId, old(clock), old(clock))]
                     && clock == old(clock) + 1
      ensures !ok ==> votes == old(votes) && clock == old(clock)
      ensures stories == old(stories) && nextId == old(nextId)
    {
      ok := ValidDirection(direction) && FindStoryWithId(stories, storyId).Some?;
      if ok {
        var v := Vote(direction, storyId, clock, clock);
        assert forall w :: w in votes + [v] <==> w in votes || w == v;
        votes := votes + [v];
        clock := clock + 1;
      }
    }

    /** delete_story: DELETE FROM votes WHERE story_id, then DELETE FROM stories WHERE id */
    method DeleteStory(storyId: nat)
      requires Valid()
      modifies this
      ensures Valid()
      ensures votes == VotesWithoutStory(old(votes), storyId)
      ensures stories == StoriesWithoutId(old(stories), storyId)
      ensures nextId == old(nextId) && clock == old(clock)
    {
      votes := VotesWithoutStory(votes, storyId);
      StoriesWithoutIdKeepsIdsDistinct(stories, storyId);
      stories := StoriesWithoutId(stories, storyId);
      forall v | v in votes ensures HasStory(stories, v.storyId) {
        assert v in old(votes);
        var t :| t in old(stories) && t.id == v.storyId;
        assert t in stories;
      }
    }
  }
}
