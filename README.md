# Social news API: a verified model

The repository is a small Flask back end for a social news site. Stories (title, url and two
timestamps) and votes ('up' or 'down' on a story) sit in two PostgreSQL tables. The back end:

- lists, searches and sorts the stories, each with a score;
- creates, edits and deletes stories;
- lets users vote;
- scrapes headline links from BBC pages.

This project models three parts in Dafny.

- **The store** (`stories.dfy`, module `Stories`). The two tables are the fields of a class
  `Store`, with a counter for the next id and a clock.
  - The writing queries of `stories_functions.py` are methods of `Store` that reassign those
    fields: `make_new_story`, `update_stories`, `add_votes` and `delete_story`.
  - The read-only queries are functions of the two tables: `load_all_stories`,
    `find_story_with_id`, `find_specific_story`, `sort_stories` and `count_votes`.
  - `Store.Valid()` states the schema's invariants. These are the primary key on stories.id,
    the foreign key votes.story_id → stories.id, the check that a direction is 'up' or 'down',
    and story and vote timestamps that are never in the future.
- **The request handlers** (`api.dfy`, module `Api`). Each handler takes the parts of the
  request it reads and returns the status and JSON body:
  - POST and GET `/stories`;
  - PATCH and DELETE `/stories/<id>`;
  - POST `/stories/<id>/votes`;
  - the validation branch of POST `/scrape`.

  The handlers that write are methods over a `Store`. GET is a function of the two tables.
  The vote handler's guard refuses a down-vote when the score is absent or 0. Every handler
  preserves `ScoresNonNegative`: no story's count_votes score is negative.
- **The scraper loop** (`scraper.dfy`, module `Scraper`). This is the loop of
  `parse_stories_bs` that turns the anchors the CSS selector matched into `{url, title}`
  records. It is modelled twice:
  - as written, where it removes skipped anchors from the list it is iterating over;
  - as evidently intended. See Findings.

`text.dfy` (module `Text`) holds the string operations over ASCII: LOWER, INITCAP, substring
search and character-code order. `options.dfy` holds `Option`.

Two points where a reader might expect something other than what the code does; the model
follows the code:

- A reader might expect NULL as the listed score of a story without votes; the query gives 0.
  The listing queries LEFT JOIN the
  votes, so such a story contributes one row whose NULL direction falls into `ELSE 0`. Only
  `count_votes` gives NULL: it has no rows to sum.
- `sort_stories` sorts ascending when `order` is absent or `"ascending"`, and descending for
  every other value, including values that name neither direction.

## Model

| member | source | states |
|---|---|---|
| Text.Contains | api.py:44 | `sub in s` holds exactly when `sub` occurs in `s` at some position |
| Text.InitCapIgnoresCase | stories_functions.py:108-115 | two titles equal up to case have the same INITCAP sort key |
| Text.LexLeTotal | stories_functions.py:115 | any two sort keys are ordered one way or the other |
| Text.LexLeTransitive | stories_functions.py:115 | the order of sort keys is transitive |
| Text.Lower | stories_functions.py:130 | LOWER and Python's `str.lower`: every ASCII capital becomes its small letter, every other character stays |
| Text.InitCap | stories_functions.py:108 | INITCAP: the first letter or digit of each run of letters and digits is upper-cased, the others lower-cased |
| Stories.VotesFor | stories_functions.py:148 | `WHERE story_id = id` keeps exactly the votes with that story id |
| Stories.UpOrElseSum | stories_functions.py:146 | count_votes' aggregate is #up minus the number of all other votes |
| Stories.UpDownSum | stories_functions.py:26-27 | the listing aggregate is #up minus #down |
| Stories.CountVotes | stories_functions.py:142-155 | count_votes is absent exactly when the story has no votes; otherwise it is #up − (#votes − #up) over the story's votes |
| Stories.ListedScore | stories_functions.py:26-29 | the listed score of a story is #up − #down over its votes |
| Stories.VotesForEmpty | stories_functions.py:148 | a story has no votes exactly when no vote carries its id |
| Stories.NoVotesMeansNoScore | stories_functions.py:26-29 | count_votes is absent exactly when no vote refers to the story, and then the listings give score 0 |
| Stories.LoadAllStories | stories_functions.py:22-33 | one row per stored story, vote-less stories included, each with its own up/down score |
| Stories.FindStoryWithId | stories_functions.py:63-69 | the result is a stored story with that id; it is absent exactly when no story has the id |
| Stories.FindSpecificStory | stories_functions.py:123-139 | a row is returned exactly when its story is stored, its lower-cased title contains the lower-cased search, and it carries the story's score; no more rows than stories |
| Stories.OncePerStory | stories_functions.py:131 | no two rows of a listing are of the same story id, as GROUP BY stories.id gives |
| Stories.FindSpecificStoryListsEachOnce | stories_functions.py:127-132 | in a table with a primary key, find_specific_story lists each matching story once |
| Stories.TitleMatches | stories_functions.py:130-133 | `LOWER(title) LIKE '%search.lower()%'`: the lower-cased title contains the lower-cased search |
| Stories.ColumnFor | stories_functions.py:102-108 | exactly "title", "score", "created" and "modified" name a column: "title" is the INITCAP(title) key, "score" the score, "created" created_at and "modified" updated_at |
| Stories.Ascending | stories_functions.py:100 | the order is ASC exactly when `order` is None or "ascending" |
| Stories.KeyLe | stories_functions.py:108-115 | the ORDER BY key of each column: INITCAP(title) by character code, the score, created_at, updated_at |
| Stories.BeforeTotal | stories_functions.py:115 | any two rows are ordered one way or the other by the ORDER BY key |
| Stories.BeforeTransitive | stories_functions.py:115 | the ORDER BY order is transitive |
| Stories.InsertRowSorted | stories_functions.py:115 | inserting a row into a sorted listing keeps it sorted |
| Stories.SortRows | stories_functions.py:115 | ORDER BY yields a permutation of its input that is sorted by the key |
| Stories.SortStories | stories_functions.py:97-120 | sort_stories returns a permutation of load_all_stories. It is ascending in the key exactly when `order` is absent or "ascending", and descending otherwise |
| Stories.TitleOrderIgnoresCase | stories_functions.py:108-115 | replacing a title by one equal up to case does not change how it compares under INITCAP |
| Stories.StoriesWithoutId | stories_functions.py:89 | `DELETE FROM stories WHERE id` keeps exactly the stories with another id |
| Stories.StoriesWithoutIdConcat | stories_functions.py:89 | deleting from two tables put end to end deletes from each, so the stories that stay keep their order |
| Stories.StoriesWithoutIdKeepsIdsDistinct | stories_functions.py:89 | deleting stories keeps the primary key a key |
| Stories.VotesWithoutStory | stories_functions.py:88 | `DELETE FROM votes WHERE story_id` keeps exactly the votes of other stories |
| Stories.VotesWithoutStoryConcat | stories_functions.py:88 | the same for the votes: those that stay keep their order |
| Stories.EditedFrom | stories_functions.py:40-42 | the stories table after `UPDATE stories SET title, url, updated_at WHERE id`: the rows with that id get the new title, url and updated_at, every other row and column stays |
| Stories.EditOfMissingIdChangesNothing | stories_functions.py:40-44 | an update of an id no story has leaves the stories table as it was |
| Stories.OccurrencesAppend | stories_functions.py:75-78 | one more vote raises the count of its direction by one and no other |
| Stories.VotesForAppend | stories_functions.py:75-78 | an inserted vote joins the votes of its own story, at the end, and no other story's |
| Stories.CountVotesAfterOtherVote | stories_functions.py:75-78 | a vote on one story leaves every other story's count_votes as it was |
| Stories.CountVotesAfterFirstVote | stories_functions.py:75-78 | the first vote on a story gives it score +1 for 'up' and −1 otherwise |
| Stories.CountVotesAfterOwnVote | stories_functions.py:75-78 | a further vote on a story moves its score by +1 for 'up' and −1 otherwise |
| Stories.VotesForWithoutStory | stories_functions.py:88 | after deleting a story's votes it has none, and every other story keeps its own |
| Stories.CountVotesAfterDelete | stories_functions.py:84-94 | after delete_story the story has no score, and every other story keeps its count_votes and listed score |
| Stories.UpAndDownAreAll | stories_functions.py:146 | when every direction is 'up' or 'down', #up + #down is the number of votes |
| Stories.CountVotesAgreesWithListing | stories_functions.py:26-27 | with only 'up' and 'down' votes, count_votes is the listed score of a story with votes, and absent otherwise |
| Stories.NewStoryIsListed | stories_functions.py:54-57 | a newly inserted story, which no vote refers to, is listed with score 0 |
| Stories.Store.Valid | stories_functions.py:75-89 | the schema's constraints the queries rely on: unique story ids below the next id to hand out, directions 'up' or 'down', every vote of a stored story, and story and vote timestamps with created_at ≤ updated_at before now |
| Stories.Store.constructor | stories_functions.py:8-17 | the database the connection opens, before anything is stored: no stories and no votes, and the constraints hold |
| Stories.Store.MakeNewStory | stories_functions.py:50-60 | appends exactly one story with the next id, the given title and url, and created_at = updated_at = now. Votes are unchanged, no vote refers to the new id, and the invariant is kept |
| Stories.Store.UpdateStories | stories_functions.py:36-47 | the story with the id gets the new title, url and updated_at = now. Every other story, every other column and the votes are unchanged, and the invariant is kept |
| Stories.Store.AddVotes | stories_functions.py:72-81 | the insert succeeds exactly when the direction is 'up' or 'down' and the story exists. It then appends one vote with that direction, story id and timestamps = now; otherwise nothing changes |
| Stories.Store.DeleteStory | stories_functions.py:84-94 | removes exactly the story's votes and then the story. Every other story and vote stays, in order, and the invariant is kept |
| Api.HasSearch | api.py:85-91 | Python's `if search:` on `args.get('search')`: the argument is present and not empty |
| Api.PostStories | api.py:69-80 | "url" is checked before "title". A missing field gives 400 with its message and changes nothing. With both, exactly one story is added and 201 is returned. Scores stay non-negative |
| Api.GetStories | api.py:82-99 | 404 "No stories were found" exactly when the store is empty, whatever the arguments. A non-empty search wins and lists exactly the matching stories, each once when ids are a key. Otherwise a known sort parameter gives the sorted permutation in the requested direction, and anything else gives load_all_stories, with 200 |
| Api.EditStories | api.py:102-131 | 404 and no change when no story has the id. PATCH checks "url" before "title" (400, no change), then updates and returns 201. DELETE deletes the story and its votes and returns 200. Scores stay non-negative |
| Api.PostVote | api.py:134-152 | a missing "direction" raises (500, no change). A down-vote on a story with absent or zero score gives 400 and adds no vote. Any other vote the schema admits adds exactly one vote and returns 200. Scores stay non-negative |
| Api.DownvoteRefused | api.py:143-144 | the vote guard `not score and direction == "down"`: the score is absent or 0 and the vote is a down-vote |
| Api.VoteKeepsScoreNonNegative | api.py:142-150 | a vote that passes the guard keeps one story's count_votes score non-negative |
| Api.GuardedVoteKeepsScoresNonNegative | api.py:142-150 | a vote that passes the guard keeps every story's count_votes score non-negative |
| Api.NoVotesNoNegativeScore | stories_functions.py:146-148 | with no votes, no story has a score, so none is negative |
| Api.ScrapeRequest | api.py:39-49 | a missing "url" raises (500). A url not containing "bbc.co.uk" gives 400 with the domain message. Scraping proceeds, with that url, exactly when it contains "bbc.co.uk" |
| Scraper.Skipped | news_scaper.py:25 | the skip test: no text, or no href, or an empty one |
| Scraper.Emit | news_scaper.py:28-31 | the record for an anchor: url is domain_url followed by the href, title is the text |
| Scraper.AsWritten | news_scaper.py:24-31 | what the loop as written emits: a skipped anchor also hides the anchor after it |
| Scraper.ParseStories | news_scaper.py:24-31 | what the loop evidently means to emit: the record of every anchor that is not skipped, in order |
| Scraper.IndexOf | news_scaper.py:26 | `list.remove(x)` removes the first element equal to x |
| Scraper.SkipStep | news_scaper.py:25-27 | removing a skipped anchor and moving on leaves what remains to be emitted as the as-written loop defines it |
| Scraper.EmitStep | news_scaper.py:28-31 | an anchor that is not skipped emits its record, followed by what the rest emits |
| Scraper.ParseStoriesBs | news_scaper.py:15-33 | the loop as written, iterating by index over the list it removes from, emits exactly `AsWritten` of the anchors |
| Scraper.AsWrittenSources | news_scaper.py:24-33 | every record the loop as written emits comes from an anchor with non-empty text and non-empty href. Its url is domain_url + href and its title the text, records keep the anchors' order, and there are at most as many records as anchors |
| Scraper.ParseStoriesSources | news_scaper.py:24-31 | the same for the intended loop: each record comes, in order, from an anchor that is not skipped, with url domain_url + href and the anchor's text as title |
| Scraper.ParseStoriesCount | news_scaper.py:18-31 | the intended loop emits one record per anchor that is not skipped, so at most one per anchor |
| Scraper.ParseStoriesComplete | news_scaper.py:25-31 | the intended loop emits the record of every anchor with text and an href |
| Scraper.ParseStoriesStep | news_scaper.py:24-31 | one step of the intended loop: a skipped anchor adds nothing, any other adds its record |
| Scraper.ParseStoriesIntended | news_scaper.py:24-33 | the loop without the removal emits exactly `ParseStories` of the anchors |
| Scraper.AsWrittenAgreesWithoutSkips | news_scaper.py:24-31 | when no anchor but perhaps the last is skipped, the loop as written and the intended loop emit the same records |
| Scraper.RemovalHidesNextAnchor | news_scaper.py:24-27 | for a text-less anchor followed by a good one, the loop as written emits nothing while the intended loop emits the good one |

## Left out

- `get_db_connection`, environment variables, psycopg2 cursors, commit and close are I/O
  plumbing. The store is abstract state, and each query is one step on it.
- `get_html` (urlopen and UTF-8 decoding) is network I/O. BeautifulSoup parsing and the CSS
  selector are a foreign library. The loop takes the matched anchors as a sequence of
  (text, optional href).
- The static-page routes `/` and `/add`, the GET branch of `/scrape` and `app.run` serve files
  and start the server.
- The success path of POST `/scrape` (api.py:51-59) is left out. It calls `make_new_story`
  and `update_stories` with argument lists that match neither definition
  (stories_functions.py:36 and :50), so it cannot succeed as written. Only the validation
  branch is modelled, as `Api.ScrapeRequest`. Its 400 branch writes nothing: that branch
  issues no writing query.
- `current_timestamp` is the store's `clock`. Each query that inserts or updates
  current_timestamp (make_new_story, update_stories, a successful add_votes) reads it and
  advances it, so those timestamps are distinct and increasing; delete_story and a refused
  add_votes leave it as it is. Timestamps inside one transaction are not modelled
  as equal across statements.
- The ids stories.id hands out come from `nextId`, a counter that deletions never reuse.
- `%` and `_` in the search text act as LIKE wildcards (stories_functions.py:133).
  `Stories.FindSpecificStory` treats the search as plain text.
- Case mapping covers ASCII only. PostgreSQL's LOWER and INITCAP on other letters are not
  modelled.
- Sort keys are compared by character code (C collation). An ORDER BY under another collation
  is not modelled.
- Stories.SortStories: ties between equal keys may come out in any order the sort yields,
  just as in SQL. The listing order of load_all_stories and find_specific_story, which SQL
  leaves unspecified, is modelled as table order.
- Stories.FindSpecificStory: its own contract states which rows are returned and that there
  are no more rows than stories; that each story is listed once is the separate lemma
  `Stories.FindSpecificStoryListsEachOnce`, which needs the primary key.
- `find_story_with_id` uses `fetchone()`, which gives None for a missing id, but the handler
  compares with `[]` (api.py:108). Likewise `count_votes` returns one row that the handler
  indexes as `votes[0]` (api.py:143). As in the repository's tests, the lookup is modelled as
  an option that is absent when the id is missing, and the score as an optional integer.
- The table definitions are not part of this model. Two constraints on them are assumed:
  votes.direction is 'up' or 'down', and votes.story_id refers to a stored story. `Stories.Store.AddVotes` refuses an insert that
  breaks either, as the database would raise, and the vote handler then answers 500.
- `request.json` being absent or not an object is not modelled, nor are field values that
  are not strings. The body is a map from field names to strings.
- The check-then-insert race in the vote handler and other concurrent requests are not
  modelled. The handlers run one at a time.

## Findings

| source | as written | input that shows it | evidently intended | confidence | as-written member | corrected member |
|---|---|---|---|---|---|---|
| news_scaper.py:24-27 | `scrape_results.remove(story)` inside `for story in scrape_results` shifts the rest of the list down one place, so the anchor right after a removed one is never examined, neither emitted nor removed | the selector matches `[<a href="/news"></a>, <a href="/news/1">Headline</a>]`: the first has no text and is removed, and the loop ends without emitting "Headline" | skip the anchor and examine every other one, emitting a record for each anchor with text and an href | not executed | Scraper.ParseStoriesBs, Scraper.RemovalHidesNextAnchor | Scraper.ParseStoriesIntended, Scraper.ParseStories |
