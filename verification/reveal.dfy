/**
 * `handleClick` (app.js:120-139): the reveal state machine of one clue, and its
 * effect on the board when a cell is clicked.
 */
module Reveal {
  import opened Wrappers
  import opened CellIds
  import opened Board

  /** What a clue's cell shows in each reveal state: "?" until it is first clicked. */
  function CellText(clue: Clue): (text: string)
    ensures clue.showing == Hidden ==> text == "?"
    ensures clue.showing != Hidden ==> text == clue.question || text == clue.answer
  {
    match clue.showing
    case Hidden => "?"
    case Question => clue.question
    case Answer => clue.answer
  }

  /** The clue after a click, and the text written into its cell (`None`: the click is ignored). */
  datatype Step = Step(clue: Clue, msg: Option<string>)

  /** One click on a clue: a hidden clue shows its question, a question gives way to
      its answer, and a click on an answer is ignored. */
  function Click(clue: Clue): (r: Step)
    ensures r.clue.question == clue.question && r.clue.answer == clue.answer
    ensures r.msg.Some? <==> clue.showing != Answer
    ensures r.msg.Some? ==> Rank(r.clue.showing) == Rank(clue.showing) + 1 && r.msg.value == CellText(r.clue)
    ensures r.msg.None? ==> r.clue == clue
  {
    match clue.showing
    case Hidden => Step(clue.(showing := Question), Some(clue.question))
    case Question => Step(clue.(showing := Answer), Some(clue.answer))
    case Answer => Step(clue, None)
  }

  /** The clue after `n` clicks. */
  function Clicks(clue: Clue, n: nat): Clue
    decreases n
  {
    if n == 0 then clue else Clicks(Click(clue).clue, n - 1)
  }

  /** Each click moves a clue one state forward until it shows its answer, and never back:
      after `n` clicks its state is `min(2, rank + n)`, its texts untouched. */
  lemma {:induction false} ClicksAdvance(clue: Clue, n: nat)
    ensures Clicks(clue, n).question == clue.question && Clicks(clue, n).answer == clue.answer
    ensures Rank(Clicks(clue, n).showing) == if Rank(clue.showing) + n < 2 then Rank(clue.showing) + n else 2
    decreases n
  {
    if n > 0 {
      ClicksAdvance(Click(clue).clue, n - 1);
    }
  }

  /** From a hidden clue: the first click shows the question, the second the answer, and
      from then on every click is ignored and the clue stays on its answer. */
  lemma RevealSequence(clue: Clue, n: nat)
    requires clue.showing == Hidden
    requires n >= 2
    ensures Click(clue).msg == Some(clue.question) && Click(clue).clue.showing == Question
    ensures Click(Click(clue).clue).msg == Some(clue.answer)
    ensures Clicks(clue, n) == clue.(showing := Answer)
    ensures Click(Clicks(clue, n)) == Step(Clicks(clue, n), None)
  {
    ClicksAdvance(clue, n);
  }

  /** The board with one clue replaced: everything else is as it was. */
  function UpdateClue(board: seq<Category>, c: nat, q: nat, clue: Clue): (r: seq<Category>)
    requires c < |board| && q < |board[c].clues|
    ensures |r| == |board|
    ensures forall k | 0 <= k < |r| :: r[k].title == board[k].title && |r[k].clues| == |board[k].clues|
    ensures r[c].clues[q] == clue
    ensures forall k, j | 0 <= k < |r| && 0 <= j < |r[k].clues| && (k != c || j != q) ::
      r[k].clues[j] == board[k].clues[j]
  {
    board[c := board[c].(clues := board[c].clues[q := clue])]
  }

  /** The clue `categories[catId].clues[clueId]` names, when that lookup finds one;
      otherwise reading from it throws and the click has no effect. The lookup finds
      a clue exactly when the id decodes to the coordinates of a clue on the board,
      and then it is that clue. */
  function Locate(board: seq<Category>, id: string): (r: Option<(nat, nat)>)
    ensures r.Some? ==> DecodeCell(id) == r && r.value.0 < |board| && r.value.1 < |board[r.value.0].clues|
    ensures DecodeCell(id).Some? ==>
      var (c, q) := DecodeCell(id).value;
      c < |board| && q < |board[c].clues| ==> r.Some?
  {
    match DecodeCell(id)
    case None => None
    case Some((c, q)) => if c < |board| && q < |board[c].clues| then Some((c, q)) else None
  }

  /** The id of a cell addresses exactly that cell's clue, when the board has it. */
  lemma LocateCellId(board: seq<Category>, c: nat, q: nat)
    ensures Locate(board, CellId(c, q)) == if c < |board| && q < |board[c].clues| then Some((c, q)) else None
  {
    CellIdRoundTrip(c, q);
  }

  /** `before` has become `after` by revealing clues further: the same categories, titles
      and clue texts, and no clue's state has moved back. */
  ghost predicate Advanced(before: seq<Category>, after: seq<Category>) {
    && |after| == |before|
    && (forall c | 0 <= c < |before| ::
          after[c].title == before[c].title && |after[c].clues| == |before[c].clues|)
    && (forall c, q | 0 <= c < |before| && 0 <= q < |before[c].clues| ::
          && after[c].clues[q].question == before[c].clues[q].question
          && after[c].clues[q].answer == before[c].clues[q].answer
          && Rank(before[c].clues[q].showing) <= Rank(after[c].clues[q].showing))
  }

  /** The board after a click on the cell with the given id. */
  function ClickBoard(board: seq<Category>, id: string): (r: seq<Category>)
    ensures Advanced(board, r)
    ensures Locate(board, id).None? ==> r == board
    ensures forall k, j | 0 <= k < |board| && 0 <= j < |board[k].clues| && Locate(board, id) != Some((k, j)) ::
      r[k].clues[j] == board[k].clues[j]
  {
    match Locate(board, id)
    case None => board
    case Some((c, q)) => UpdateClue(board, c, q, Click(board[c].clues[q]).clue)
  }

  /** What a click does besides changing the board: it throws (`Failed`), returns early
      (`Ignored`), or writes `text` into the element whose id is `cell`. */
  datatype Outcome = Failed | Ignored | Shown(cell: string, text: string)

  function ClickOutcome(board: seq<Category>, id: string): (o: Outcome)
    ensures o.Failed? <==> Locate(board, id).None?
  {
    match Locate(board, id)
    case None => Failed
    case Some((c, q)) =>
      match Click(board[c].clues[q]).msg
      case None => Ignored
      case Some(msg) => Shown(CellId(c, q), msg)
  }

  /** A click on any id that finds clue `(c, q)` (including ids with further pieces, such
      as "0-0-x"): from `null` the clue shows its question, from `"question"` its answer,
      and from `"answer"` nothing happens; the text goes to the element `CellId(c, q)`. */
  lemma ClickLocated(board: seq<Category>, id: string, c: nat, q: nat)
    requires Locate(board, id) == Some((c, q))
    ensures c < |board| && q < |board[c].clues|
    ensures var clue := board[c].clues[q];
      && (clue.showing == Hidden ==>
            ClickBoard(board, id) == UpdateClue(board, c, q, clue.(showing := Question))
            && ClickOutcome(board, id) == Shown(CellId(c, q), clue.question))
      && (clue.showing == Question ==>
            ClickBoard(board, id) == UpdateClue(board, c, q, clue.(showing := Answer))
            && ClickOutcome(board, id) == Shown(CellId(c, q), clue.answer))
      && (clue.showing == Answer ==>
            ClickBoard(board, id) == board && ClickOutcome(board, id) == Ignored)
  {
    if board[c].clues[q].showing == Answer {
      assert board[c].clues[q := board[c].clues[q]] == board[c].clues;
    }
  }

  /** A click on cell `(c, q)`: from `null` the clue shows its question, from `"question"`
      its answer, from `"answer"` nothing happens, and a cell without a clue changes nothing;
      no other clue is touched. */
  lemma ClickCell(board: seq<Category>, c: nat, q: nat)
    ensures var id := CellId(c, q);
      if c < |board| && q < |board[c].clues| then
        var clue := board[c].clues[q];
        && (clue.showing == Hidden ==>
              ClickBoard(board, id) == UpdateClue(board, c, q, clue.(showing := Question))
              && ClickOutcome(board, id) == Shown(id, clue.question))
        && (clue.showing == Question ==>
              ClickBoard(board, id) == UpdateClue(board, c, q, clue.(showing := Answer))
              && ClickOutcome(board, id) == Shown(id, clue.answer))
        && (clue.showing == Answer ==>
              ClickBoard(board, id) == board && ClickOutcome(board, id) == Ignored)
      else
        ClickBoard(board, id) == board && ClickOutcome(board, id) == Failed
  {
    LocateCellId(board, c, q);
    if c < |board| && q < |board[c].clues| {
      ClickLocated(board, CellId(c, q), c, q);
    }
  }

  /** The board after a series of clicks, in order. */
  function ClickAll(board: seq<Category>, ids: seq<string>): seq<Category>
    decreases |ids|
  {
    if ids == [] then board else ClickAll(ClickBoard(board, ids[0]), ids[1..])
  }

  /** Until the board is replaced, no sequence of clicks moves any clue back. */
  lemma {:induction false} ClicksNeverRegress(board: seq<Category>, ids: seq<string>)
    ensures Advanced(board, ClickAll(board, ids))
    decreases |ids|
  {
    if ids != [] {
      var next := ClickBoard(board, ids[0]);
      ClicksNeverRegress(next, ids[1..]);
      AdvancedTransitive(board, next, ClickAll(next, ids[1..]));
    }
  }

  lemma AdvancedTransitive(a: seq<Category>, b: seq<Category>, c: seq<Category>)
    requires Advanced(a, b) && Advanced(b, c)
    ensures Advanced(a, c)
  {
  }
}
