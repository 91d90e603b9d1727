/**
 * The game's data: the board `categories` (app.js:43) and how it is assembled
 * from the trivia service's answers by `getCategoryIds`, `getCategory` and the
 * loop of `setupAndStart` (app.js:51-82, 160-167).
 */
module Board {
  import opened Wrappers
  import opened Sampling

  const NUM_CATEGORIES: nat := 6
  const NUM_CLUES_PER_CAT: nat := 5

  type CategoryId = int

  /** A clue's `showing` field: `null`, `"question"` or `"answer"`. */
  datatype Showing = Hidden | Question | Answer

  datatype Clue = Clue(question: string, answer: string, showing: Showing)

  datatype Category = Category(title: string, clues: seq<Clue>)

  /** A clue as the service sends it (fields other than these are dropped). */
  datatype ApiClue = ApiClue(id: int, question: string, answer: string)

  /** The body of a `category?id=` response. */
  datatype ApiCategory = ApiCategory(title: string, clues: seq<ApiClue>)

  /** One entry of the `categories?count=100` listing: only its id is used. */
  datatype CategorySummary = CategorySummary(id: CategoryId)

  /** What one `getCategory` request yields: the response body, and the positions
      `_.sampleSize` drew from its clue list. */
  datatype CategoryResponse = CategoryResponse(category: ApiCategory, picks: seq<nat>)

  /** The order in which reveal states follow each other. */
  function Rank(s: Showing): nat {
    match s
    case Hidden => 0
    case Question => 1
    case Answer => 2
  }

  predicate AllHidden(board: seq<Category>) {
    forall c, q | 0 <= c < |board| && 0 <= q < |board[c].clues| :: board[c].clues[q].showing == Hidden
  }

  /** `randomClues.map(c => ({question, answer, showing: null}))`. */
  function NormaliseAll(clues: seq<ApiClue>): (r: seq<Clue>)
    ensures |r| == |clues|
    ensures forall i | 0 <= i < |r| ::
      r[i].question == clues[i].question && r[i].answer == clues[i].answer && r[i].showing == Hidden
  {
    if clues == [] then []
    else [Clue(clues[0].question, clues[0].answer, Hidden)] + NormaliseAll(clues[1..])
  }

  /** `getCategory` once its request succeeded: the title, and the clues at the
      sampled positions, normalised and hidden. */
  function GetCategory(cat: ApiCategory, picks: seq<nat>): (r: Category)
    requires InRange(picks, |cat.clues|)
    ensures r.title == cat.title && |r.clues| == |picks|
    ensures forall i | 0 <= i < |r.clues| ::
      r.clues[i] == Clue(cat.clues[picks[i]].question, cat.clues[picks[i]].answer, Hidden)
  {
    Category(cat.title, NormaliseAll(SampleSize(cat.clues, picks)))
  }

  /** With a well-behaved sampler, a category holds `NUM_CLUES_PER_CAT` clues when the
      service knows at least that many (all of them otherwise), each taken from a
      different clue of the response. */
  lemma GetCategoryShape(cat: ApiCategory, picks: seq<nat>)
    requires ValidPicks(picks, |cat.clues|, NUM_CLUES_PER_CAT)
    ensures |GetCategory(cat, picks).clues| == Min(NUM_CLUES_PER_CAT, |cat.clues|)
    ensures |cat.clues| >= NUM_CLUES_PER_CAT ==> |GetCategory(cat, picks).clues| == NUM_CLUES_PER_CAT
    ensures forall i | 0 <= i < |GetCategory(cat, picks).clues| ::
      exists j | 0 <= j < |cat.clues| ::
        GetCategory(cat, picks).clues[i] == Clue(cat.clues[j].question, cat.clues[j].answer, Hidden)
    ensures Distinct(cat.clues) ==> Distinct(SampleSize(cat.clues, picks))
  {
    SampleOfPool(cat.clues, picks, NUM_CLUES_PER_CAT);
  }

  function Ids(pool: seq<CategorySummary>): (ids: seq<CategoryId>)
    ensures |ids| == |pool| && forall i | 0 <= i < |ids| :: ids[i] == pool[i].id
  {
    if pool == [] then [] else [pool[0].id] + Ids(pool[1..])
  }

  /** `getCategoryIds` once its request succeeded: the sampled ids of the listing. */
  function CategoryIds(pool: seq<CategorySummary>, picks: seq<nat>): (ids: seq<CategoryId>)
    requires InRange(picks, |pool|)
    ensures |ids| == |picks| && forall i | 0 <= i < |ids| :: ids[i] == pool[picks[i]].id
  {
    SampleSize(Ids(pool), picks)
  }

  /** With a well-behaved sampler and a listing without repeated ids, `getCategoryIds`
      gives `NUM_CATEGORIES` distinct ids of the listing (all of them when it is shorter). */
  lemma CategoryIdsShape(pool: seq<CategorySummary>, picks: seq<nat>)
    requires ValidPicks(picks, |pool|, NUM_CATEGORIES)
    ensures |CategoryIds(pool, picks)| == Min(NUM_CATEGORIES, |pool|)
    ensures forall id | id in CategoryIds(pool, picks) :: id in Ids(pool)
    ensures Distinct(Ids(pool)) ==> Distinct(CategoryIds(pool, picks))
  {
  }

  /** How the service answers one `category?id=` request: the response it gives for
      each id it can serve at that moment. An id missing from the map makes that
      request fail. */
  type Replies = map<CategoryId, CategoryResponse>

  /** Every response draws its sample from its own clue list. */
  predicate SamplesInRange(replies: Replies) {
    forall id | id in replies :: InRange(replies[id].picks, |replies[id].category.clues|)
  }

  /** `network[i]` answers the `i`-th category request; the `i`-th request of the
      loop asks for `ids[i]`. */
  predicate NetworkInRange(network: seq<Replies>) {
    forall i | 0 <= i < |network| :: SamplesInRange(network[i])
  }

  /** Every request of the loop succeeds. */
  predicate AllFetched(ids: seq<CategoryId>, network: seq<Replies>) {
    |ids| <= |network| && forall i | 0 <= i < |ids| :: ids[i] in network[i]
  }

  /** The board the loop of `setupAndStart` pushes together, starting from `[]`:
      one category per id, in id order, each from its own request, up to the first
      request that fails. A request beyond the answers given fails. */
  function Gather(ids: seq<CategoryId>, network: seq<Replies>): (board: seq<Category>)
    requires NetworkInRange(network)
    ensures |board| <= |ids| && |board| <= |network|
    decreases |ids|
  {
    if ids == [] || network == [] then []
    else
      var id := ids[0];
      var replies := network[0];
      assert SamplesInRange(replies);
      if id !in replies then []
      else [GetCategory(replies[id].category, replies[id].picks)] + Gather(ids[1..], network[1..])
  }

  /** The gathered board is complete exactly when no request failed, and whatever the
      previous board was, every clue on it is hidden. */
  lemma {:induction false} GatherComplete(ids: seq<CategoryId>, network: seq<Replies>)
    requires NetworkInRange(network)
    ensures |Gather(ids, network)| == |ids| <==> AllFetched(ids, network)
    ensures AllHidden(Gather(ids, network))
    decreases |ids|
  {
    if ids != [] && network != [] && ids[0] in network[0] {
      var rest, later := ids[1..], network[1..];
      GatherComplete(rest, later);
      var board := Gather(ids, network);
      assert AllFetched(ids, network) <==> AllFetched(rest, later) by {
        if AllFetched(rest, later) {
          forall i | 0 <= i < |ids| ensures ids[i] in network[i] {
            if i > 0 { assert ids[i] == rest[i - 1] && network[i] == later[i - 1]; }
          }
        }
        if AllFetched(ids, network) {
          forall i | 0 <= i < |rest| ensures rest[i] in later[i] {
            assert rest[i] == ids[i + 1] && later[i] == network[i + 1];
          }
        }
      }
      forall c, q | 0 <= c < |board| && 0 <= q < |board[c].clues| ensures board[c].clues[q].showing == Hidden {
        if c > 0 { assert board[c] == Gather(rest, later)[c - 1]; }
      }
    } else if ids != [] && network != [] {
      assert !AllFetched(ids, network) by { assert ids[0] !in network[0]; }
    }
  }

  /** The gathered board holds one category per successful request, in order: its
      `i`-th category is the `i`-th request's response for the `i`-th id. */
  lemma {:induction false} GatherShape(ids: seq<CategoryId>, network: seq<Replies>)
    requires NetworkInRange(network)
    ensures forall i | 0 <= i < |Gather(ids, network)| ::
      i < |network| && ids[i] in network[i] && var id := ids[i]; var replies := network[i];
      SamplesInRange(replies) && Gather(ids, network)[i] == GetCategory(replies[id].category, replies[id].picks)
    decreases |ids|
  {
    if ids != [] && network != [] && ids[0] in network[0] {
      var rest, later := ids[1..], network[1..];
      GatherShape(rest, later);
      var board := Gather(ids, network);
      forall i | 0 <= i < |board| ensures i < |network| && ids[i] in network[i] && var id := ids[i];
        var replies := network[i];
        SamplesInRange(replies) && board[i] == GetCategory(replies[id].category, replies[id].picks)
      {
        assert SamplesInRange(network[i]);
        if i > 0 {
          assert board[i] == Gather(rest, later)[i - 1] && ids[i] == rest[i - 1] && network[i] == later[i - 1];
        }
      }
    } else {
      assert Gather(ids, network) == [];
    }
  }

  /** Gathering from the `i`-th id on: the `i`-th request's response for `ids[i]`
      comes first, and a failed request ends the board there. */
  lemma GatherFrom(ids: seq<CategoryId>, network: seq<Replies>, i: nat)
    requires NetworkInRange(network)
    requires i < |ids| && i < |network|
    ensures ids[i] !in network[i] ==> Gather(ids[i..], network[i..]) == []
    ensures var id := ids[i]; var replies := network[i];
      SamplesInRange(replies) && (id in replies ==>
      Gather(ids[i..], network[i..]) ==
        [GetCategory(replies[id].category, replies[id].picks)] + Gather(ids[i + 1..], network[i + 1..]))
  {
  }

  /** Every response the service gives draws as lodash promises. */
  ghost predicate DrawsValid(replies: Replies) {
    forall id | id in replies :: ValidPicks(replies[id].picks, |replies[id].category.clues|, NUM_CLUES_PER_CAT)
  }

  /** Whatever the previous board was, a game whose listing has at least `NUM_CATEGORIES`
      entries and whose every category request answers the id drawn for it with enough
      clues has `NUM_CATEGORIES` categories of `NUM_CLUES_PER_CAT` hidden clues each,
      titled as the responses for the drawn ids, in the order the ids were drawn; the ids
      are distinct when the listing's are. */
  lemma {:induction false} SetupShape(pool: seq<CategorySummary>, idPicks: seq<nat>, network: seq<Replies>)
    requires |pool| >= NUM_CATEGORIES
    requires ValidPicks(idPicks, |pool|, NUM_CATEGORIES)
    requires |network| >= NUM_CATEGORIES
    requires forall i | 0 <= i < |network| :: DrawsValid(network[i])
    requires forall i | 0 <= i < NUM_CATEGORIES ::
      var id := CategoryIds(pool, idPicks)[i];
      id in network[i] && |network[i][id].category.clues| >= NUM_CLUES_PER_CAT
    ensures NetworkInRange(network)
    ensures var ids := CategoryIds(pool, idPicks);
      var board := Gather(ids, network);
      && |ids| == NUM_CATEGORIES
      && (Distinct(Ids(pool)) ==> Distinct(ids))
      && AllFetched(ids, network)
      && |board| == NUM_CATEGORIES
      && AllHidden(board)
      && forall c | 0 <= c < |board| ::
           var id := ids[c];
           && id in network[c]
           && board[c].title == network[c][id].category.title
           && |board[c].clues| == NUM_CLUES_PER_CAT
  {
    assert NetworkInRange(network) by {
      forall i | 0 <= i < |network| ensures SamplesInRange(network[i]) {
        assert DrawsValid(network[i]);
      }
    }
    var ids := CategoryIds(pool, idPicks);
    CategoryIdsShape(pool, idPicks);
    var board := Gather(ids, network);
    GatherComplete(ids, network);
    GatherShape(ids, network);
    forall c | 0 <= c < |board| ensures |board[c].clues| == NUM_CLUES_PER_CAT {
      var id := ids[c];
      var resp := network[c][id];
      assert DrawsValid(network[c]);
      GetCategoryShape(resp.category, resp.picks);
    }
  }
}
