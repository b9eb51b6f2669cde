/** The request handlers of api.py over the store: each takes the parts of the Flask request it
    reads (the JSON body as a map of fields, the query arguments, the method) and gives the
    status code and the JSON body of the response. */
module Api {
  import opened Options
  import opened Text
  import opened Stories

  /** The fields of a JSON request body */
  type Json = map<string, string>

  /** The query arguments of a request (request.args.to_dict()) */
  type QueryArgs = map<string, string>

  datatype Body =
    | Error(error: string)            // {"error": <error>}
    | ErrorMessage(message: string)   // {"error": true, "message": <message>}
    | ErrorList(message: string)      // [{"error": true, "message": <message>}]
    | Success(success: string)        // {"success": <success>}
    | Listing(rows: seq<Row>)         // a list of stories with their scores
    | InternalError                   // Flask's answer to an exception the handler raises

  datatype Response = Response(status: nat, body: Body)

  const MissingUrl := "missing url"
  const MissingTitle := "missing title"
  const NoStoriesFound := "No stories were found"
  const NoStoryWithId := "There is no story with this id"
  const ZeroPointsDownvote := "Can't downvote for a story with points of 0"
  const ScrapeDomainOnly := "Can only scrape from BBC homepage or BBC Topic pages at this moment in time"
  const ScrapeDomain := "bbc.co.uk"

  /** The sort parameters the GET handler hands to sort_stories */
  const SortParameters: set<string> := {"title", "score", "created", "modified"}

  /** POST /stories (get_stories): "url" is checked before "title"; with both, one story */
  method PostStories(store: Store, json: Json) returns (resp: Response)
    requires store.Valid()
    modifies store
    ensures store.Valid()
    ensures "url" !in json ==> resp == Response(400, Error(MissingUrl)) && unchanged(store)
    ensures "url" in json && "title" !in json ==>
              resp == Response(400, Error(MissingTitle)) && unchanged(store)
    ensures "url" in json && "title" in json ==>
              && resp == Response(201, Success("New story added"))
              && store.stories == old(store.stories)
                                  + [Story(old(store.nextId), json["title"], json["url"],
                                           old(store.clock), old(store.clock))]
              && store.votes == old(store.votes)
    ensures ScoresNonNegative(old(store.votes)) ==> ScoresNonNegative(store.votes)
  {
    if "url" !in json {
      return Response(400, Error(MissingUrl));
    }
    if "title" !in json {
      return Response(400, Error(MissingTitle));
    }
    store.MakeNewStory(json["url"], json["title"]);
    return Response(201, Success("New story added"));
  }

  /** The `search` argument, when it is present and not empty (Python's `if search:`) */
  predicate HasSearch(args: QueryArgs) {
    "search" in args && args["search"] != ""
  }

  /** GET /stories (get_stories): 404 on an empty store whatever the arguments; otherwise a
      non-empty search wins over sort, a sort parameter outside the four known ones is ignored,
      and without either every story is listed */
  function GetStories(stories: seq<Story>, votes: seq<Vote>, args: QueryArgs): (resp: Response)
    ensures resp.status == 404 <==> stories == []
    ensures stories == [] ==> resp.body == ErrorList(NoStoriesFound)
    ensures stories != [] ==> resp.status == 200 && resp.body.Listing?
    ensures stories != [] && HasSearch(args) ==>
              forall row :: row in resp.body.rows <==>
                row.story in stories && TitleMatches(row.story.title, args["search"]) &&
                row.score == ListedScore(votes, row.story.id)
    ensures stories != [] && HasSearch(args) && DistinctIds(stories) ==> OncePerStory(resp.body.rows)
    ensures stories != [] && !HasSearch(args) && "sort" in args && args["sort"] in SortParameters ==>
              && multiset(resp.body.rows) == multiset(LoadAllStories(stories, votes))
              && SortedBy(resp.body.rows, ColumnFor(args["sort"]).value,
                          Ascending(if "order" in args then Some(args["order"]) else None))
    ensures stories != [] && !HasSearch(args) && !("sort" in args && args["sort"] in SortParameters) ==>
              resp.body.rows == LoadAllStories(stories, votes)
  {
    var all := LoadAllStories(stories, votes);
    if all != [] then
      if HasSearch(args) then
        var rows := FindSpecificStory(stories, votes, args["search"]);
        assert DistinctIds(stories) ==> OncePerStory(rows) by {
          if DistinctIds(stories) {
            FindSpecificStoryListsEachOnce(stories, votes, args["search"]);
          }
        }
        Response(200, Listing(rows))
      else if "sort" in args && args["sort"] in SortParameters then
        var order := if "order" in args then Some(args["order"]) else None;
        var rows := SortStories(stories, votes, ColumnFor(args["sort"]).value, order);
        assert SortedBy(rows, ColumnFor(args["sort"]).value, Ascending(order));
        Response(200, Listing(rows))
      else
        Response(200, Listing(all))
    else
      Response(404, ErrorList(NoStoriesFound))
  }

  /** The two methods the route /stories/<id> accepts */
  datatype EditMethod = Patch | Delete

  /** PATCH and DELETE /stories/<id> (edit_stories): 404 before anything else when no story has
      the id; PATCH then checks "url" before "title" and updates, DELETE deletes */
  method EditStories(store: Store, storyId: nat, m: EditMethod, json: Json) returns (resp: Response)
    requires store.Valid()
    modifies store
    ensures store.Valid()
    ensures !HasStory(old(store.stories), storyId) ==>
              resp == Response(404, Error(NoStoryWithId)) && unchanged(store)
    ensures HasStory(old(store.stories), storyId) && m == Patch && "url" !in json ==>
              resp == Response(400, Error(MissingUrl)) && unchanged(store)
    ensures HasStory(old(store.stories), storyId) && m == Patch && "url" in json && "title" !in json ==>
              resp == Response(400, Error(MissingTitle)) && unchanged(store)
    ensures HasStory(old(store.stories), storyId) && m == Patch && "url" in json && "title" in json ==>
              && resp == Response(201, Success("Story updated"))
              && EditedFrom(old(store.stories), store.stories, storyId, json["url"], json["title"],
                            old(store.clock))
              && store.votes == old(store.votes)
    ensures HasStory(old(store.stories), storyId) && m == Delete ==>
              && resp == Response(200, Success("Story deleted"))
              && store.votes == VotesWithoutStory(old(store.votes), storyId)
              && store.stories == StoriesWithoutId(old(store.stories), storyId)
    ensures ScoresNonNegative(old(store.votes)) ==> ScoresNonNegative(store.votes)
  {
    var story := FindStoryWithId(store.stories, storyId);
    if story.None? {
      return Response(404, Error(NoStoryWithId));
    }
    match m
    case Patch =>
      if "url" !in json {
        return Response(400, Error(MissingUrl));
      }
      if "title" !in json {
        return Response(400, Error(MissingTitle));
      }
      store.UpdateStories(json["url"], json["title"], storyId);
      return Response(201, Success("Story updated"));
    case Delete =>
      ghost var before := store.votes;
      store.DeleteStory(storyId);
      forall id: nat | CountVotes(store.votes, id).Some? && ScoresNonNegative(before)
        ensures CountVotes(store.votes, id).value >= 0
      {
        CountVotesAfterDelete(before, storyId, id);
      }
      return Response(200, Success("Story deleted"));
  }

  /** The guard of the vote handler: a down-vote is refused when the score is absent or 0
      (Python's `not score`) */
  predicate DownvoteRefused(score: Option<int>, direction: string) {
    (score == None || score == Some(0)) && direction == "down"
  }

  /** A vote that passes the guard and the schema's check on its direction keeps every score
      non-negative */
  lemma GuardedVoteKeepsScoresNonNegative(votes: seq<Vote>, v: Vote)
    requires ScoresNonNegative(votes)
    requires ValidDirection(v.direction)
    requires !DownvoteRefused(CountVotes(votes, v.storyId), v.direction)
    ensures ScoresNonNegative(votes + [v])
  {
    forall id: nat | CountVotes(votes + [v], id).Some?
      ensures CountVotes(votes + [v], id).value >= 0
    {
      VoteKeepsScoreNonNegative(votes, v, id);
    }
  }

  /** The same for the score of one story */
  lemma VoteKeepsScoreNonNegative(votes: seq<Vote>, v: Vote, id: nat)
    requires CountVotes(votes, id).Some? ==> CountVotes(votes, id).value >= 0
    requires CountVotes(votes, v.storyId).Some? ==> CountVotes(votes, v.storyId).value >= 0
    requires ValidDirection(v.direction)
    requires !DownvoteRefused(CountVotes(votes, v.storyId), v.direction)
    ensures CountVotes(votes + [v], id).Some? ==> CountVotes(votes + [v], id).value >= 0
  {
    if id != v.storyId {
      CountVotesAfterOtherVote(votes, v, id);
    } else if CountVotes(votes, id).None? {
      CountVotesAfterFirstVote(votes, v);
    } else {
      CountVotesAfterOwnVote(votes, v);
    }
  }

  /** POST /stories/<id>/votes (vote): a missing "direction" raises; a refused down-vote adds
      nothing; any other vote is inserted, unless the store refuses it */
  method PostVote(store: Store, storyId: nat, json: Json) returns (resp: Response)
    requires store.Valid()
    modifies store
    ensures store.Valid()
    ensures "direction" !in json ==> resp == Response(500, InternalError) && unchanged(store)
    ensures "direction" in json && DownvoteRefused(CountVotes(old(store.votes), storyId), json["direction"]) ==>
              resp == Response(400, ErrorMessage(ZeroPointsDownvote)) && unchanged(store)
    ensures "direction" in json && !DownvoteRefused(CountVotes(old(store.votes), storyId), json["direction"]) ==>
              && store.stories == old(store.stories)
              && (if ValidDirection(json["direction"]) && HasStory(old(store.stories), storyId)
                  then resp == Response(200, Success("user voted"))
                       && store.votes == old(store.votes)
                                         + [Vote(json["direction"], storyId, old(store.clock), old(store.clock))]
                  else resp == Response(500, InternalError) && store.votes == old(store.votes))
    ensures ScoresNonNegative(old(store.votes)) ==> ScoresNonNegative(store.votes)
  {
    if "direction" !in json {
      return Response(500, InternalError);
    }
    var direction := json["direction"];
    var score := CountVotes(store.votes, storyId);
    if DownvoteRefused(score, direction) {
      return Response(400, ErrorMessage(ZeroPointsDownvote));
    }
    ghost var before := store.votes;
    var ok := store.AddVotes(direction, storyId);
    if !ok {
      return Response(500, InternalError);
    }
    if ScoresNonNegative(before) {
      GuardedVoteKeepsScoresNonNegative(before, Vote(direction, storyId, old(store.clock), old(store.clock)));
    }
    return Response(200, Success("user voted"));
  }

  /** What POST /scrape does with the request before it scrapes */
  datatype ScrapeOutcome =
    | Rejected(response: Response)   // answered without fetching or writing anything
    | Proceed(url: string)           // goes on to fetch and parse this page

  /** The validation branch of POST /scrape (scrape): a missing "url" raises, a url that does not
      contain "bbc.co.uk" is answered with 400 */
  function ScrapeRequest(json: Json): (outcome: ScrapeOutcome)
    ensures "url" !in json ==> outcome == Rejected(Response(500, InternalError))
    ensures "url" in json && !Contains(json["url"], ScrapeDomain) ==>
              outcome == Rejected(Response(400, ErrorMessage(ScrapeDomainOnly)))
    ensures outcome.Proceed? <==> "url" in json && exists i :: OccursAt(json["url"], ScrapeDomain, i)
    ensures outcome.Proceed? ==> outcome.url == json["url"]
  {
    if "url" !in json then Rejected(Response(500, InternalError))
    else if !Contains(json["url"], ScrapeDomain) then Rejected(Response(400, ErrorMessage(ScrapeDomainOnly)))
    else Proceed(json["url"])
  }

  /** The store as the constructor creates it has no votes, so no negative score */
  lemma NoVotesNoNegativeScore()
    ensures ScoresNonNegative([])
  {
    forall id: nat ensures CountVotes([], id) == None {
    }
  }
}
