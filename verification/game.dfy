/**
 * The game controller of app.js: the module-level board `categories` (app.js:43)
 * together with the table on the page, updated in place by `fillTable`
 * (app.js:92-110), `handleClick` (app.js:120-139) and `setupAndStart`
 * (app.js:160-170). The network, the sampler and the DOM are replaced by their
 * results: the listing and sampled positions for `getCategoryIds`, the answers
 * of each `getCategory` request in turn, and the table as rows of cells.
 */
module Game {
  import opened Wrappers
  import opened CellIds
  import opened Sampling
  import opened Board
  import opened Reveal
  import opened Table

  /** The text the cell of clue `q` of a category should show: "?" when the category has no such clue. */
  function Displayed(cat: Category, q: nat): string {
    if q < |cat.clues| then CellText(cat.clues[q]) else "?"
  }

  /** The page shows the board: one header cell per displayed category with its title,
      the laid-out grid, and in every cell the text its clue's reveal state calls for. */
  ghost predicate Shows(board: seq<Category>, header: seq<string>, body: seq<seq<Cell>>) {
    && |board| >= NUM_CATEGORIES
    && |header| == NUM_CATEGORIES
    && (forall c | 0 <= c < NUM_CATEGORIES :: header[c] == board[c].title)
    && LaidOut(body)
    && forall q, c | 0 <= q < NUM_CLUES_PER_CAT && 0 <= c < NUM_CATEGORIES :: body[q][c].text == Displayed(board[c], q)
  }

  /** A freshly drawn table of "?" shows a board whose clues are all hidden. */
  lemma PlaceholdersShowHiddenBoard(board: seq<Category>, header: seq<string>, body: seq<seq<Cell>>)
    requires |board| >= NUM_CATEGORIES && AllHidden(board)
    requires |header| == NUM_CATEGORIES && forall c | 0 <= c < NUM_CATEGORIES :: header[c] == board[c].title
    requires LaidOut(body) && forall q, c | 0 <= q < |body| && 0 <= c < |body[q]| :: body[q][c].text == "?"
    ensures Shows(board, header, body)
  {
  }

  /** A click keeps the page in step with the board: the cell it writes to is the clicked
      clue's own cell, and what it writes is what the clue's new state shows. */
  lemma ClickKeepsShowing(board: seq<Category>, header: seq<string>, body: seq<seq<Cell>>, id: string)
    requires Shows(board, header, body)
    ensures var o := ClickOutcome(board, id);
      Shows(ClickBoard(board, id), header, if o.Shown? then SetText(body, o.cell, o.text) else body)
  {
    match Locate(board, id)
    case None =>
    case Some((c, q)) =>
      if Click(board[c].clues[q]).msg.None? {
        assert board[c].clues[q := board[c].clues[q]] == board[c].clues;
      } else {
        RevealKeepsShowing(board, header, body, c, q);
      }
  }

  /** Revealing clue `(c, q)` and writing the revealed text into its cell keeps the page
      in step with the board. */
  lemma RevealKeepsShowing(board: seq<Category>, header: seq<string>, body: seq<seq<Cell>>, c: nat, q: nat)
    requires Shows(board, header, body)
    requires c < |board| && q < |board[c].clues| && Click(board[c].clues[q]).msg.Some?
    ensures var step := Click(board[c].clues[q]);
      Shows(UpdateClue(board, c, q, step.clue), header, SetText(body, CellId(c, q), step.msg.value))
  {
    var step := Click(board[c].clues[q]);
    var board' := UpdateClue(board, c, q, step.clue);
    var body' := SetText(body, CellId(c, q), step.msg.value);
    SetTextOnGrid(body, c, q, step.msg.value);
    assert LaidOut(body');
    forall q', c' | 0 <= q' < NUM_CLUES_PER_CAT && 0 <= c' < NUM_CATEGORIES
      ensures body'[q'][c'].text == Displayed(board'[c'], q')
    {
      DisplayedAfterUpdate(board, c, q, step.clue, c', q');
      if q' == q && c' == c {
        assert body'[q][c].text == step.msg.value;
      } else {
        assert body'[q'][c'] == body[q'][c'];
      }
    }
  }

  /** Updating one clue changes what its own cell displays and no other. */
  lemma DisplayedAfterUpdate(board: seq<Category>, c: nat, q: nat, clue: Clue, c': nat, q': nat)
    requires c < |board| && q < |board[c].clues| && c' < |board|
    ensures Displayed(UpdateClue(board, c, q, clue)[c'], q') ==
      if c' == c && q' == q then CellText(clue) else Displayed(board[c'], q')
  {
  }

  /** How `setupAndStart` ended: the listing request failed, a category request failed,
      `fillTable` threw, or the new board is on the page. */
  datatype Setup = ListingFailed | CategoryFailed | TableFailed | Started

  class GameState {
    /** The board: the module-level `categories`. */
    var categories: seq<Category>
    /** The `<thead>` row: one title per header cell. */
    var header: seq<string>
    /** The `<tbody>` rows. */
    var body: seq<seq<Cell>>

    /** The page displays the board. */
    ghost predicate InSync()
      reads this
    {
      Shows(categories, header, body)
    }

    /** Page load: an empty board and an empty table. */
    constructor ()
      ensures categories == [] && header == [] && body == []
    {
      categories, header, body := [], [], [];
    }

    /** `fillTable`: empties the header, writes one title per category, then empties the
        body and lays out `NUM_CLUES_PER_CAT` rows of `NUM_CATEGORIES` "?" cells. With
        fewer than `NUM_CATEGORIES` categories, reading the missing title throws: the
        header stays empty and the old body stays on the page. */
    method FillTable() returns (ok: bool)
      modifies this
      ensures categories == old(categories)
      ensures ok <==> |categories| >= NUM_CATEGORIES
      ensures !ok ==> header == [] && body == old(body)
      ensures ok ==> |header| == NUM_CATEGORIES && forall c | 0 <= c < NUM_CATEGORIES :: header[c] == categories[c].title
      ensures ok ==> LaidOut(body) && forall q, c | 0 <= q < |body| && 0 <= c < |body[q]| :: body[q][c].text == "?"
      ensures ok && AllHidden(categories) ==> InSync()
    {
      header := [];
      var tr: seq<string> := [];
      for catIdx := 0 to NUM_CATEGORIES
        invariant |tr| == catIdx && catIdx <= |categories|
        invariant forall k | 0 <= k < catIdx :: tr[k] == categories[k].title
        invariant header == [] && body == old(body) && categories == old(categories)
      {
        if catIdx >= |categories| {
          return false;
        }
        tr := tr + [categories[catIdx].title];
      }
      header := tr;

      body := [];
      for clueIdx := 0 to NUM_CLUES_PER_CAT
        invariant |body| == clueIdx
        invariant forall q | 0 <= q < clueIdx ::
          |body[q]| == NUM_CATEGORIES && forall c | 0 <= c < NUM_CATEGORIES :: body[q][c] == Cell(CellId(c, q), "?")
        invariant header == tr && categories == old(categories)
      {
        var row: seq<Cell> := [];
        for catIdx := 0 to NUM_CATEGORIES
          invariant |row| == catIdx
          invariant forall c | 0 <= c < catIdx :: row[c] == Cell(CellId(c, clueIdx), "?")
        {
          row := row + [Cell(CellId(catIdx, clueIdx), "?")];
        }
        body := body + [row];
      }
      ok := true;
      if AllHidden(categories) {
        PlaceholdersShowHiddenBoard(categories, header, body);
      }
    }

    /** The lookup of `handleClick`: `let [catId, clueId] = id.split("-")`, then
        `categories[catId].clues[clueId]`. It finds the clue exactly when `Locate` does;
        a piece that names no element ends the lookup, where reading from the missing
        element throws. */
    method FindClue(id: string) returns (found: Option<(nat, nat)>)
      ensures found == Locate(categories, id)
    {
      var pieces := Split(id, '-');
      if |pieces| < 2 {
        // `clueId` is undefined: `clues[undefined]` is no clue and reading from it throws
        return None;
      }
      var catId, clueId := pieces[0], pieces[1];
      var c := ParseIndex(catId);
      if c.None? || c.value >= |categories| {
        // `categories[catId]` is undefined: reading `.clues` from it throws
        return None;
      }
      var q := ParseIndex(clueId);
      if q.None? || q.value >= |categories[c.value].clues| {
        // `clue` is undefined: reading `.showing` from it throws
        return None;
      }
      return Some((c.value, q.value));
    }

    /** `handleClick` on the cell with the given id: looks the clue up through the first
        two pieces of `id.split("-")`, advances its reveal state, and writes the question
        or answer into the element `#<catId>-<clueId>`. Only the addressed clue changes,
        no clue moves back, and a page that showed the board still does. */
    method HandleClick(id: string) returns (outcome: Outcome)
      modifies this
      ensures categories == ClickBoard(old(categories), id)
      ensures outcome == ClickOutcome(old(categories), id)
      ensures header == old(header)
      ensures body == if outcome.Shown? then SetText(old(body), outcome.cell, outcome.text) else old(body)
      ensures Advanced(old(categories), categories)
      ensures old(InSync()) ==> InSync()
    {
      var found := FindClue(id);
      if found.None? {
        return Failed;
      }
      var (c, q) := found.value;
      var clue := categories[c].clues[q];
      var msg: string;
      if clue.showing == Hidden {
        msg := clue.question;
        categories := UpdateClue(categories, c, q, clue.(showing := Question));
      } else if clue.showing == Question {
        msg := clue.answer;
        categories := UpdateClue(categories, c, q, clue.(showing := Answer));
      } else {
        assert categories[c].clues[q := clue] == categories[c].clues;
        return Ignored;
      }
      DecodeCellSound(id, c, q);
      if old(InSync()) {
        RevealKeepsShowing(old(categories), header, body, c, q);
      }
      var pieces := Split(id, '-');
      body := SetText(body, pieces[0] + "-" + pieces[1], msg);
      outcome := Shown(pieces[0] + "-" + pieces[1], msg);
    }

    /** The loop of `setupAndStart`: empties the board, then requests the category of
        each id in order and pushes it, stopping at the first request that fails. The
        board ends as `Gather` of the ids, and the loop runs to the end exactly when every
        request succeeds; the table is not touched. */
    method FetchCategories(catIds: seq<CategoryId>, network: seq<Replies>) returns (complete: bool)
      requires NetworkInRange(network)
      modifies this
      ensures categories == Gather(catIds, network)
      ensures complete <==> AllFetched(catIds, network)
      ensures header == old(header) && body == old(body)
    {
      categories := [];
      assert catIds[0..] == catIds && network[0..] == network;
      for i := 0 to |catIds|
        invariant i <= |network|
        invariant forall j | 0 <= j < i :: catIds[j] in network[j]
        invariant Gather(catIds, network) == categories + Gather(catIds[i..], network[i..])
        invariant header == old(header) && body == old(body)
      {
        var catId := catIds[i];
        if i == |network| {
          // no answer left for this request: it fails
          assert network[i..] == [];
          return false;
        }
        var replies := network[i];
        GatherFrom(catIds, network, i);
        if catId !in replies {
          return false;
        }
        var category := GetCategory(replies[catId].category, replies[catId].picks);
        ghost var later := Gather(catIds[i + 1..], network[i + 1..]);
        assert categories + ([category] + later) == (categories + [category]) + later;
        categories := categories + [category];
      }
      assert catIds[|catIds|..] == [];
      return true;
    }

    /** `setupAndStart`: fetches the ids, empties the board, pushes one category per id in
        order, each from its own request, then calls `fillTable`. A failed listing request
        leaves everything as it was; a failed category request leaves the board holding the
        categories fetched so far and the old table on the page. */
    method SetupAndStart(listing: Option<seq<CategorySummary>>, idPicks: seq<nat>, network: seq<Replies>)
      returns (result: Setup)
      requires listing.Some? ==> InRange(idPicks, |listing.value|)
      requires NetworkInRange(network)
      modifies this
      ensures listing.None? ==>
        result == ListingFailed && categories == old(categories) && header == old(header) && body == old(body)
      ensures listing.Some? ==>
        var ids := CategoryIds(listing.value, idPicks);
        && categories == Gather(ids, network)
        && AllHidden(categories)
        && (!AllFetched(ids, network) ==> result == CategoryFailed && header == old(header) && body == old(body))
        && (AllFetched(ids, network) && |ids| < NUM_CATEGORIES ==> result == TableFailed && header == [] && body == old(body))
        && (AllFetched(ids, network) && |ids| >= NUM_CATEGORIES ==> result == Started && InSync())
    {
      if listing.None? {
        return ListingFailed;
      }
      var catIds := CategoryIds(listing.value, idPicks);
      var complete := FetchCategories(catIds, network);
      GatherComplete(catIds, network);
      if !complete {
        return CategoryFailed;
      }

      var ok := FillTable();
      result := if ok then Started else TableFailed;
    }
  }

  /** The answer to every category request of the scenario below: a category of five
      clues, of which `_.sampleSize` draws all five in order. */
  function MathResponse(): (r: CategoryResponse)
    ensures |r.category.clues| == NUM_CLUES_PER_CAT
    ensures ValidPicks(r.picks, |r.category.clues|, NUM_CLUES_PER_CAT)
    ensures r.category.clues[r.picks[0]] == ApiClue(1, "2+2", "4")
  {
    var clues := [ApiClue(1, "2+2", "4"), ApiClue(2, "1+1", "2"), ApiClue(3, "3+3", "6"),
                  ApiClue(4, "4+4", "8"), ApiClue(5, "5+5", "10")];
    CategoryResponse(ApiCategory("Math", clues), [0, 1, 2, 3, 4])
  }

  /** A listing of seven categories with the ids 1 to 7. */
  function SevenCategories(): (listing: seq<CategorySummary>)
    ensures |listing| == 7 && Distinct(Ids(listing))
    ensures forall id | id in Ids(listing) :: 1 <= id <= 7
    ensures listing[6].id == 7
  {
    seq(7, i => CategorySummary(i + 1))
  }

  /** A service that answers every id from 1 to 7 with `MathResponse`. */
  function MathService(): (replies: Replies)
    ensures forall id | 1 <= id <= 7 :: id in replies && replies[id] == MathResponse()
    ensures forall id | id in replies :: replies[id] == MathResponse()
  {
    var math := MathResponse();
    map[1 := math, 2 := math, 3 := math, 4 := math, 5 := math, 6 := math, 7 := math]
  }

  /** Six category requests, each answered by `MathService`. */
  function ScenarioNetwork(): (network: seq<Replies>)
    ensures |network| == NUM_CATEGORIES
    ensures forall i | 0 <= i < |network| :: network[i] == MathService()
  {
    seq(NUM_CATEGORIES, _ => MathService())
  }

  /** Drawing positions 6, 0, 1, 2, 3, 4 of `SevenCategories` gives six distinct ids, every
      request succeeds, and the board gets six categories of five clues, the first of
      which is the hidden clue "2+2". */
  lemma ScenarioBoard(picks: seq<nat>)
    requires picks == [6, 0, 1, 2, 3, 4]
    ensures InRange(picks, |SevenCategories()|) && NetworkInRange(ScenarioNetwork())
    ensures var ids := CategoryIds(SevenCategories(), picks);
      var board := Gather(ids, ScenarioNetwork());
      && |ids| == NUM_CATEGORIES && Distinct(ids) && AllFetched(ids, ScenarioNetwork())
      && |board| == NUM_CATEGORIES
      && (forall c | 0 <= c < NUM_CATEGORIES :: |board[c].clues| == NUM_CLUES_PER_CAT)
      && board[0].clues[0] == Clue("2+2", "4", Hidden)
  {
    var listing, replies, network: seq<Replies> := SevenCategories(), MathService(), ScenarioNetwork();
    assert DrawsValid(replies);
    var ids := CategoryIds(listing, picks);
    CategoryIdsShape(listing, picks);
    forall i | 0 <= i < NUM_CATEGORIES
      ensures ids[i] in network[i] && |network[i][ids[i]].category.clues| >= NUM_CLUES_PER_CAT
    {
      assert ids[i] in Ids(listing);
    }
    SetupShape(listing, picks, network);
    GatherShape(ids, network);
    assert ids[0] == 7 && network[0] == replies && replies[7] == MathResponse();
  }

  /** A game from a seven-category listing: six distinct categories are drawn, each
      request answers with five clues, the board holds them with every clue hidden, the
      page shows it, and the first cell belongs to the clue "2+2". */
  method SetupScenario() returns (game: GameState)
    ensures |game.categories| == NUM_CATEGORIES
    ensures forall c | 0 <= c < NUM_CATEGORIES :: |game.categories[c].clues| == NUM_CLUES_PER_CAT
    ensures game.categories[0].clues[0] == Clue("2+2", "4", Hidden)
    ensures game.InSync()
  {
    var listing, network := SevenCategories(), ScenarioNetwork();
    var picks := [6, 0, 1, 2, 3, 4];
    ScenarioBoard(picks);
    assert Distinct(CategoryIds(listing, picks));

    game := new GameState();
    var result := game.SetupAndStart(Some(listing), picks, network);
    assert result == Started;
  }

  /** Clicking the first cell of that game three times: it shows "2+2", then "4", then
      the click is ignored and the clue stays on its answer. */
  method ClickScenario(game: GameState) returns (first: Outcome, second: Outcome, third: Outcome)
    requires |game.categories| > 0 && |game.categories[0].clues| > 0
    requires game.categories[0].clues[0] == Clue("2+2", "4", Hidden)
    modifies game
    ensures first == Shown("0-0", "2+2") && second == Shown("0-0", "4") && third == Ignored
    ensures |game.categories| > 0 && |game.categories[0].clues| > 0
    ensures game.categories[0].clues[0] == Clue("2+2", "4", Answer)
  {
    assert CellId(0, 0) == "0-0";
    ClickCell(game.categories, 0, 0);
    first := game.HandleClick("0-0");
    ClickCell(game.categories, 0, 0);
    second := game.HandleClick("0-0");
    ClickCell(game.categories, 0, 0);
    third := game.HandleClick("0-0");
  }
}
